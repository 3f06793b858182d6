/**
 The stream multiplexer of a circuit: the `pending` map of response channels, used at once by any number
 of OpenStream, RecvData and CloseStream calls and by the one message handler. Every step below is one
 atomic operation of that code; a run is any sequence of steps.
 */
module StreamMux {
  import opened Basics
  import opened StreamIds

  type Message = seq<byte>

  /** `registered` counts the dispatches before the channel was registered; `taken` is what was received. */
  datatype Channel = Channel(stream: int, registered: nat, capacity: nat, queue: seq<Message>, taken: seq<Message>)

  datatype Dispatch = Dispatch(stream: int, message: Message)

  /** Where a call stands: an id allocated but not registered, or waiting on a channel it holds. */
  datatype Call = Allocated(stream: int) | Waiting(stream: int, channel: nat, opening: bool)

  /** How a call ended that received something: for OpenStream whether the exit connected the stream. */
  datatype Answered = Connected(stream: int) | Refused(stream: int) | Received(stream: int, message: Message)

  /**
   `sending` is the handler between finding a channel and the end of its send on it; `answered` lists what the
   calls returned that ended with a message.
   */
  datatype State = State(
    counter: uint32,
    pending: map<int, nat>,
    channels: seq<Channel>,
    sending: Option<(nat, Message)>,
    dispatched: seq<Dispatch>,
    calls: map<nat, Call>,
    answered: seq<Answered>)

  const INITIAL := State(0, map[], [], None, [], map[], [])

  const OPEN_CAPACITY := 1
  const RECV_CAPACITY := 10

  datatype Action =
    | Allocate(call: nat)                    // OpenStream: nextStreamID
    | Register(call: nat)                    // OpenStream: LoadOrStore; an id in use fails the call
    | GiveUpOpen(call: nat)                  // OpenStream: send failure, timeout or cancellation
    | StartRecv(call: nat, stream: int)      // RecvData: LoadOrStore
    | GiveUpRecv(call: nat)                  // RecvData: timeout or cancellation
    | Take(call: nat, success: bool)         // either: receive from the channel; OpenStream reads what it
                                             // got as a StreamConnected that reports success, or not
    | Route(stream: int, message: Message)   // handler: look the stream up
    | Send                                   // handler: the channel has room
    | Drop                                   // handler: the send timed out
    | Close(stream: int)                     // CloseStream

  function NewChannel(s: State, stream: int, capacity: nat): State {
    s.(pending := s.pending[stream := |s.channels|],
       channels := s.channels + [Channel(stream, |s.dispatched|, capacity, [], [])])
  }

  function Step(s: State, a: Action): Option<State> {
    match a
    case Allocate(call) =>
      if call in s.calls then None
      else Some(s.(counter := NextId(s.counter), calls := s.calls[call := Allocated(NextId(s.counter))]))
    case Register(call) =>
      if call !in s.calls || !s.calls[call].Allocated? then None
      else
        var id := s.calls[call].stream;
        if id in s.pending then Some(s.(calls := s.calls - {call}))
        else Some(NewChannel(s, id, OPEN_CAPACITY).(calls := s.calls[call := Waiting(id, |s.channels|, true)]))
    case GiveUpOpen(call) =>
      if call !in s.calls || !s.calls[call].Waiting? || !s.calls[call].opening then None
      else Some(s.(calls := s.calls - {call}, pending := s.pending - {s.calls[call].stream}))
    case StartRecv(call, stream) =>
      if call in s.calls then None
      else if stream in s.pending then Some(s.(calls := s.calls[call := Waiting(stream, s.pending[stream], false)]))
      else Some(NewChannel(s, stream, RECV_CAPACITY).(calls := s.calls[call := Waiting(stream, |s.channels|, false)]))
    case GiveUpRecv(call) =>
      if call !in s.calls || !s.calls[call].Waiting? || s.calls[call].opening then None
      else Some(s.(calls := s.calls - {call}))
    case Take(call, success) =>
      if call !in s.calls || !s.calls[call].Waiting? then None
      else
        var c := s.calls[call].channel;
        if c >= |s.channels| || s.channels[c].queue == [] then None
        else
          var ch, stream := s.channels[c], s.calls[call].stream;
          Some(s.(calls := s.calls - {call},
                  answered := s.answered + [if !s.calls[call].opening then Received(stream, ch.queue[0])
                                            else if success then Connected(stream) else Refused(stream)],
                  channels := s.channels[c := ch.(queue := ch.queue[1..], taken := ch.taken + [ch.queue[0]])]))
    case Route(stream, message) =>
      if s.sending.Some? then None
      else
        Some(s.(dispatched := s.dispatched + [Dispatch(stream, message)],
                sending := if stream in s.pending then Some((s.pending[stream], message)) else None))
    case Send =>
      if s.sending.None? || s.sending.value.0 >= |s.channels| then None
      else
        var (c, m) := s.sending.value;
        var ch := s.channels[c];
        if |ch.queue| >= ch.capacity then None
        else Some(s.(sending := None, channels := s.channels[c := ch.(queue := ch.queue + [m])]))
    case Drop =>
      if s.sending.None? then None else Some(s.(sending := None))
    case Close(stream) =>
      Some(s.(pending := s.pending - {stream}))
  }

  /** The state after a run, if every step of it was enabled. */
  ghost function Run(actions: seq<Action>): Option<State> {
    if actions == [] then Some(INITIAL)
    else
      var before := Run(actions[..|actions| - 1]);
      if before.None? then None else Step(before.value, actions[|actions| - 1])
  }

  /** The messages of a log that were for one stream, in order. */
  ghost function For(log: seq<Dispatch>, stream: int): seq<Message> {
    if log == [] then []
    else
      var rest := For(log[..|log| - 1], stream);
      if log[|log| - 1].stream == stream then rest + [log[|log| - 1].message] else rest
  }

  ghost predicate Subsequence(a: seq<Message>, b: seq<Message>)
    decreases |b|
  {
    || a == []
    || (b != [] && a[|a| - 1] == b[|b| - 1] && Subsequence(a[..|a| - 1], b[..|b| - 1]))
    || (b != [] && Subsequence(a, b[..|b| - 1]))
  }

  /** What a channel ever accepted. */
  function Accepted(ch: Channel): seq<Message> { ch.taken + ch.queue }

  /** A channel only ever accepted messages for its stream, routed after it was registered, in order. */
  ghost predicate Faithful(ch: Channel, log: seq<Dispatch>) {
    && ch.registered <= |log|
    && |ch.queue| <= ch.capacity
    && Subsequence(Accepted(ch), For(log[ch.registered..], ch.stream))
  }

  ghost predicate Inv(s: State) {
    && (forall id :: id in s.pending ==> s.pending[id] < |s.channels| && s.channels[s.pending[id]].stream == id)
    && (forall c :: c in s.calls && s.calls[c].Waiting? ==>
          s.calls[c].channel < |s.channels| && s.channels[s.calls[c].channel].stream == s.calls[c].stream)
    && (forall i :: 0 <= i < |s.channels| ==> Faithful(s.channels[i], s.dispatched))
    && (s.sending.Some? ==> Sending(s, s.sending.value.0, s.sending.value.1))
  }

  /** The message being sent is the last one routed, and its channel's history stops before it. */
  ghost predicate Sending(s: State, c: nat, m: Message) {
    && c < |s.channels| && s.dispatched != []
    && var ch := s.channels[c]; var before := s.dispatched[..|s.dispatched| - 1];
       s.dispatched[|s.dispatched| - 1] == Dispatch(ch.stream, m) && Faithful(ch, before)
  }

  lemma ForGrows(log: seq<Dispatch>, d: Dispatch, from: nat, stream: int)
    requires from <= |log|
    ensures For((log + [d])[from..], stream) ==
            (if d.stream == stream then For(log[from..], stream) + [d.message] else For(log[from..], stream))
  {
    var longer := (log + [d])[from..];
    assert longer[..|longer| - 1] == log[from..];
  }

  lemma SubsequenceGrows(a: seq<Message>, b: seq<Message>, m: Message)
    requires Subsequence(a, b)
    ensures Subsequence(a, b + [m]) && Subsequence(a + [m], b + [m])
  {
    assert (b + [m])[..|b|] == b && (a + [m])[..|a|] == a;
  }

  lemma FaithfulStays(ch: Channel, log: seq<Dispatch>, d: Dispatch)
    requires Faithful(ch, log)
    ensures Faithful(ch, log + [d])
  {
    ForGrows(log, d, ch.registered, ch.stream);
    if d.stream == ch.stream {
      SubsequenceGrows(Accepted(ch), For(log[ch.registered..], ch.stream), d.message);
    }
  }

  lemma RouteKeepsInv(s: State, stream: int, message: Message)
    requires Inv(s) && s.sending.None?
    ensures Inv(Step(s, Route(stream, message)).value)
  {
    var d := Dispatch(stream, message);
    var t := Step(s, Route(stream, message)).value;
    assert t.dispatched[..|t.dispatched| - 1] == s.dispatched;
    forall i | 0 <= i < |t.channels| ensures Faithful(t.channels[i], t.dispatched) {
      FaithfulStays(s.channels[i], s.dispatched, d);
    }
  }

  lemma SendKeepsInv(s: State)
    requires Inv(s) && Step(s, Send).Some?
    ensures Inv(Step(s, Send).value)
  {
    var (c, m) := s.sending.value;
    var ch := s.channels[c];
    var before := s.dispatched[..|s.dispatched| - 1];
    assert s.dispatched == before + [Dispatch(ch.stream, m)];
    FaithfulAfterSend(ch, before, m);
    var t := Step(s, Send).value;
    forall i | 0 <= i < |t.channels| ensures Faithful(t.channels[i], t.dispatched) {
      assert i != c ==> t.channels[i] == s.channels[i];
    }
  }

  lemma FaithfulAfterSend(ch: Channel, before: seq<Dispatch>, m: Message)
    requires Faithful(ch, before) && |ch.queue| < ch.capacity
    ensures Faithful(ch.(queue := ch.queue + [m]), before + [Dispatch(ch.stream, m)])
  {
    ForGrows(before, Dispatch(ch.stream, m), ch.registered, ch.stream);
    SubsequenceGrows(Accepted(ch), For(before[ch.registered..], ch.stream), m);
    assert Accepted(ch.(queue := ch.queue + [m])) == Accepted(ch) + [m];
  }

  /** What a channel ever accepted does not change when a message moves from its queue to a receiver. */
  lemma TakingStaysFaithful(ch: Channel, ch': Channel, log: seq<Dispatch>)
    requires Accepted(ch') == Accepted(ch) && |ch'.queue| <= |ch.queue|
    requires ch'.registered == ch.registered && ch'.stream == ch.stream && ch'.capacity == ch.capacity
    ensures Faithful(ch, log) ==> Faithful(ch', log)
  {
  }

  lemma TakeKeepsInv(s: State, call: nat, success: bool)
    requires Inv(s) && Step(s, Take(call, success)).Some?
    ensures Inv(Step(s, Take(call, success)).value)
  {
    var c := s.calls[call].channel;
    var ch, ch' := s.channels[c], Step(s, Take(call, success)).value.channels[c];
    var t := Step(s, Take(call, success)).value;
    assert Accepted(ch') == Accepted(ch);
    TakingStaysFaithful(ch, ch', s.dispatched);
    forall i | 0 <= i < |t.channels| ensures Faithful(t.channels[i], t.dispatched) {
      assert i != c ==> t.channels[i] == s.channels[i];
    }
    if s.sending.Some? {
      TakingStaysFaithful(ch, ch', s.dispatched[..|s.dispatched| - 1]);
    }
  }

  /** Registering a new channel under a free id, for a call that then waits on it. */
  lemma RegisterKeepsInv(s: State, t: State, stream: int, capacity: nat, call: nat, opening: bool)
    requires Inv(s) && stream !in s.pending
    requires t == NewChannel(s, stream, capacity).(calls := s.calls[call := Waiting(stream, |s.channels|, opening)])
    ensures Inv(t)
  {
    assert s.dispatched[|s.dispatched|..] == [];
    forall i | 0 <= i < |t.channels| ensures Faithful(t.channels[i], t.dispatched) {
      assert i < |s.channels| ==> t.channels[i] == s.channels[i];
    }
  }

  /** Steps that only drop registrations, calls or the message being sent, or allocate an id. */
  lemma BookkeepingKeepsInv(s: State, t: State)
    requires Inv(s) && t.channels == s.channels && t.dispatched == s.dispatched
    requires forall id :: id in t.pending ==> id in s.pending && t.pending[id] == s.pending[id]
    requires forall c :: c in t.calls && t.calls[c].Waiting? ==> c in s.calls && t.calls[c] == s.calls[c]
    requires t.sending == s.sending || t.sending == None
    ensures Inv(t)
  {
  }

  lemma OpenKeepsInv(s: State, call: nat)
    requires Inv(s) && Step(s, Register(call)).Some?
    ensures Inv(Step(s, Register(call)).value)
  {
    var t, id := Step(s, Register(call)).value, s.calls[call].stream;
    if id !in s.pending {
      RegisterKeepsInv(s, t, id, OPEN_CAPACITY, call, true);
    } else {
      BookkeepingKeepsInv(s, t);
    }
  }

  lemma RecvKeepsInv(s: State, call: nat, stream: int)
    requires Inv(s) && Step(s, StartRecv(call, stream)).Some?
    ensures Inv(Step(s, StartRecv(call, stream)).value)
  {
    var t := Step(s, StartRecv(call, stream)).value;
    if stream !in s.pending {
      RegisterKeepsInv(s, t, stream, RECV_CAPACITY, call, false);
    }
  }

  lemma StepKeepsInv(s: State, a: Action)
    requires Inv(s) && Step(s, a).Some?
    ensures Inv(Step(s, a).value)
  {
    var t := Step(s, a).value;
    match a {
      case Route(stream, message) => RouteKeepsInv(s, stream, message);
      case Send => SendKeepsInv(s);
      case Take(call, success) => TakeKeepsInv(s, call, success);
      case Register(call) => OpenKeepsInv(s, call);
      case StartRecv(call, stream) => RecvKeepsInv(s, call, stream);
      case _ => BookkeepingKeepsInv(s, t);
    }
  }

  lemma {:induction false} RunKeepsInv(actions: seq<Action>)
    requires Run(actions).Some?
    ensures Inv(Run(actions).value)
  {
    if actions != [] {
      RunKeepsInv(actions[..|actions| - 1]);
      StepKeepsInv(Run(actions[..|actions| - 1]).value, actions[|actions| - 1]);
    }
  }

  lemma {:induction false} PrefixIsSubsequence(a: seq<Message>, b: seq<Message>, c: seq<Message>)
    requires Subsequence(a + b, c)
    ensures Subsequence(a, c)
    decreases |c|
  {
    if a == [] {
    } else if b == [] {
      assert a + b == a;
    } else {
      var ab := a + b;
      if ab[|ab| - 1] == c[|c| - 1] && Subsequence(ab[..|ab| - 1], c[..|c| - 1]) {
        assert ab[..|ab| - 1] == a + b[..|b| - 1];
        PrefixIsSubsequence(a, b[..|b| - 1], c[..|c| - 1]);
      } else {
        PrefixIsSubsequence(a, b, c[..|c| - 1]);
      }
    }
  }

  /**
   Isolation, over every run: what was received from a channel is an in-order subsequence of what the
   handler routed to that channel's stream after its registration, never more than the channel's capacity
   is waiting in it, and a call that asked for a stream waits on a channel of that stream.
   */
  lemma StreamsAreIsolated(actions: seq<Action>, c: nat)
    requires Run(actions).Some? && c < |Run(actions).value.channels|
    ensures var s := Run(actions).value; var ch := s.channels[c];
      && ch.registered <= |s.dispatched|
      && Subsequence(ch.taken, For(s.dispatched[ch.registered..], ch.stream))
      && |ch.queue| <= ch.capacity
      && forall call :: call in s.calls && s.calls[call].Waiting? && s.calls[call].channel == c ==>
           s.calls[call].stream == ch.stream
  {
    RunKeepsInv(actions);
    var s := Run(actions).value;
    var ch := s.channels[c];
    assert Faithful(ch, s.dispatched);
    PrefixIsSubsequence(ch.taken, ch.queue, For(s.dispatched[ch.registered..], ch.stream));
  }

  /** Two ids never share a channel, and registering an id never takes it over from whoever has it. */
  lemma RegistrationsAreExclusive(actions: seq<Action>, a: Action, id: int, other: int)
    requires Run(actions).Some? && Step(Run(actions).value, a).Some?
    requires id in Run(actions).value.pending
    ensures var s := Run(actions).value; var t := Step(s, a).value;
      && (other in s.pending && s.pending[other] == s.pending[id] ==> other == id)
      && (id in t.pending ==> t.pending[id] == s.pending[id])
      && (id !in t.pending ==> (a.Close? && a.stream == id) ||
                               (a.GiveUpOpen? && s.calls[a.call].stream == id))
  {
    RunKeepsInv(actions);
    var s := Run(actions).value;
    RegistrationStep(s, a, id, s.pending[id]);
  }

  // ----- a refused stream -----

  ghost predicate Opening(s: State, call: nat, id: int) {
    call in s.calls && s.calls[call].Waiting? && s.calls[call].opening && s.calls[call].stream == id
  }

  /**
   While nobody closes stream `id`: an OpenStream waiting on it has it registered, no other one waits on it,
   and once one was answered the registration is there to stay.
   */
  ghost predicate Held(s: State, id: int) {
    && (forall c :: Opening(s, c, id) ==> id in s.pending)
    && (forall c, d :: Opening(s, c, id) && Opening(s, d, id) ==> c == d)
    && (Connected(id) in s.answered || Refused(id) in s.answered ==> id in s.pending && forall c :: !Opening(s, c, id))
  }

  lemma StepKeepsHeld(s: State, a: Action, id: int)
    requires Held(s, id) && Step(s, a).Some? && a != Close(id)
    ensures Held(Step(s, a).value, id)
  {
    var t := Step(s, a).value;
    match a {
      case Register(call) =>
        forall c | Opening(t, c, id) && c != call ensures Opening(s, c, id) {
        }
      case Take(call, success) =>
        forall c | Opening(t, c, id) ensures Opening(s, c, id) && c != call {
        }
        if s.calls[call].opening && s.calls[call].stream == id {
          assert Opening(s, call, id);
        }
      case GiveUpOpen(call) =>
        forall c | Opening(t, c, id) ensures Opening(s, c, id) && c != call {
        }
        if s.calls[call].stream == id {
          assert Opening(s, call, id);
        }
      case _ =>
        forall c | Opening(t, c, id) ensures Opening(s, c, id) {
        }
    }
  }

  lemma {:induction false} RunKeepsHeld(actions: seq<Action>, id: int)
    requires Run(actions).Some? && Close(id) !in actions
    ensures Held(Run(actions).value, id)
  {
    if actions != [] {
      var before, a := actions[..|actions| - 1], actions[|actions| - 1];
      assert actions == before + [a];
      RunKeepsHeld(before, id);
      StepKeepsHeld(Run(before).value, a, id);
    }
  }

  /**
   An OpenStream that the exit refused leaves its id registered: over every run without a CloseStream of that
   id it is still pending at the end, whatever else was opened, received, closed or given up, and no other
   OpenStream waits on it.
   */
  lemma RefusedStaysPending(actions: seq<Action>, id: int)
    requires Run(actions).Some? && Refused(id) in Run(actions).value.answered
    requires Close(id) !in actions
    ensures id in Run(actions).value.pending && forall c :: !Opening(Run(actions).value, c, id)
  {
    RunKeepsHeld(actions, id);
  }

  // ----- how long a registration lasts -----

  /** The steps that take id's registration away: closing the stream, or giving up an OpenStream that waits on it. */
  ghost predicate Removes(s: State, a: Action, id: int) {
    a == Close(id) || (a.GiveUpOpen? && Opening(s, a.call, id))
  }

  /** Some step after `before` does. */
  ghost predicate RemovedSince(before: seq<Action>, later: seq<Action>, id: int) {
    exists k :: 0 <= k < |later| && RemovedAt(before, later, id, k)
  }

  ghost predicate RemovedAt(before: seq<Action>, later: seq<Action>, id: int, k: nat)
    requires k < |later|
  {
    Run(before + later[..k]).Some? && Removes(Run(before + later[..k]).value, later[k], id)
  }

  /** The registration of id is still the one with channel c. */
  predicate Registered(s: State, id: int, c: nat) {
    id in s.pending && s.pending[id] == c
  }

  /** A registration goes exactly with a step that removes it; one that is gone does not come back. */
  lemma RegistrationStep(s: State, a: Action, id: int, c: nat)
    requires Step(s, a).Some? && c < |s.channels|
    ensures c < |Step(s, a).value.channels|
    ensures Removes(s, a, id) ==> id !in Step(s, a).value.pending
    ensures Registered(Step(s, a).value, id, c) <==> Registered(s, id, c) && !Removes(s, a, id)
  {
    var t := Step(s, a).value;
    match a {
      case Close(stream) => assert t.pending == s.pending - {stream};
      case GiveUpOpen(call) =>
        assert t.pending == s.pending - {s.calls[call].stream};
        assert Opening(s, call, s.calls[call].stream);
      case Register(call) => PendingKept(s, t, id, c);
      case StartRecv(call, stream) => PendingKept(s, t, id, c);
      case _ => assert t.pending == s.pending;
    }
  }

  /** New registrations are of free ids, on new channels. */
  lemma PendingKept(s: State, t: State, id: int, c: nat)
    requires c < |s.channels|
    requires t.pending == s.pending || exists free :: free !in s.pending && t.pending == s.pending[free := |s.channels|]
    ensures Registered(t, id, c) <==> Registered(s, id, c)
  {
  }

  lemma {:induction false} RunOnward(before: seq<Action>, later: seq<Action>, k: nat)
    requires Run(before + later).Some? && k <= |later|
    ensures Run(before + later[..k]).Some?
    decreases |later|
  {
    if k < |later| {
      var n := |later| - 1;
      assert later == later[..n] + [later[n]];
      RunSplits(before, later[..n], later[n]);
      RunOnward(before, later[..n], k);
      assert later[..n][..k] == later[..k];
    } else {
      assert later[..k] == later;
    }
  }

  lemma RunSplits(before: seq<Action>, shorter: seq<Action>, a: Action)
    ensures Run(before + (shorter + [a])) ==
            if Run(before + shorter).None? then None else Step(Run(before + shorter).value, a)
  {
    assert before + (shorter + [a]) == (before + shorter) + [a];
    RunOneMore(before + shorter, a);
  }

  lemma RemovedSinceOneMore(before: seq<Action>, later: seq<Action>, a: Action, id: int)
    requires Run(before + (later + [a])).Some? && Run(before + later).Some?
    ensures RemovedSince(before, later + [a], id) <==>
            RemovedSince(before, later, id) || Removes(Run(before + later).value, a, id)
  {
    var longer := later + [a];
    assert longer[..|later|] == later;
    forall k | 0 <= k < |later| ensures RemovedAt(before, longer, id, k) <==> RemovedAt(before, later, id, k) {
      assert longer[..k] == later[..k];
    }
    assert RemovedAt(before, longer, id, |later|) <==> Removes(Run(before + later).value, a, id);
  }

  lemma RegisteredChannel(actions: seq<Action>, id: int, c: nat)
    requires Run(actions).Some? && Registered(Run(actions).value, id, c)
    ensures c < |Run(actions).value.channels|
  {
    RunKeepsInv(actions);
  }

  lemma LastsOneMore(before: seq<Action>, later: seq<Action>, a: Action, id: int, c: nat)
    requires Run(before + later).Some? && c < |Run(before + later).value.channels|
    requires Registered(Run(before + later).value, id, c) <==> !RemovedSince(before, later, id)
    requires Run(before + (later + [a])).Some?
    ensures c < |Run(before + (later + [a])).value.channels|
    ensures Registered(Run(before + (later + [a])).value, id, c) <==> !RemovedSince(before, later + [a], id)
  {
    RunSplits(before, later, a);
    RegistrationStep(Run(before + later).value, a, id, c);
    RemovedSinceOneMore(before, later, a, id);
  }

  /**
   A registration lasts exactly until its id is closed or an OpenStream that waits on it is given up: over
   every run, and every continuation of it.
   */
  lemma {:induction false} RegistrationLastsIff(before: seq<Action>, later: seq<Action>, id: int, c: nat)
    requires Run(before).Some? && Registered(Run(before).value, id, c) && Run(before + later).Some?
    ensures c < |Run(before + later).value.channels|
    ensures Registered(Run(before + later).value, id, c) <==> !RemovedSince(before, later, id)
  {
    if later == [] {
      assert before + later == before;
      RegisteredChannel(before, id, c);
    } else {
      var n := |later| - 1;
      var shorter, a := later[..n], later[n];
      assert later == shorter + [a];
      RunOnward(before, later, n);
      RegistrationLastsIff(before, shorter, id, c);
      LastsOneMore(before, shorter, a, id, c);
    }
  }

  /** While no OpenStream waits on a registered id and it is not closed, none comes to wait on it. */
  lemma {:induction false} NobodyOpens(before: seq<Action>, later: seq<Action>, id: int)
    requires Run(before).Some? && id in Run(before).value.pending && forall c :: !Opening(Run(before).value, c, id)
    requires Run(before + later).Some? && Close(id) !in later
    ensures id in Run(before + later).value.pending && forall c :: !Opening(Run(before + later).value, c, id)
  {
    if later == [] {
      assert before + later == before;
    } else {
      var n := |later| - 1;
      var shorter, a := later[..n], later[n];
      assert later == shorter + [a];
      RunSplits(before, shorter, a);
      NobodyOpens(before, shorter, id);
      NobodyOpensStep(Run(before + shorter).value, a, id);
    }
  }

  lemma NobodyOpensStep(s: State, a: Action, id: int)
    requires id in s.pending && (forall c :: !Opening(s, c, id)) && Step(s, a).Some? && a != Close(id)
    ensures id in Step(s, a).value.pending && forall c :: !Opening(Step(s, a).value, c, id)
  {
    var t := Step(s, a).value;
    forall c ensures !Opening(t, c, id) {
      assert !Opening(s, c, id);
    }
    if a.GiveUpOpen? {
      assert !Opening(s, a.call, id);
    }
  }

  /**
   A registration that no OpenStream waits on, as after a refusal, lasts exactly until a CloseStream of the id,
   whatever happened before. A caller that was refused was told of no id to close.
   */
  lemma UnawaitedLastsIffNotClosed(before: seq<Action>, later: seq<Action>, id: int, c: nat)
    requires Run(before).Some? && Registered(Run(before).value, id, c)
    requires forall call :: !Opening(Run(before).value, call, id)
    requires Run(before + later).Some?
    ensures Registered(Run(before + later).value, id, c) <==> Close(id) !in later
  {
    RegistrationLastsIff(before, later, id, c);
    if Close(id) in later {
      var k :| 0 <= k < |later| && later[k] == Close(id);
      RunOnward(before, later, k);
      assert RemovedAt(before, later, id, k);
    } else {
      forall k | 0 <= k < |later| ensures !RemovedAt(before, later, id, k) {
        assert Close(id) !in later[..k];
        if Run(before + later[..k]).Some? {
          NobodyOpens(before, later[..k], id);
        }
      }
    }
  }

  /** With the refusal in the earlier part of the run, and the id not closed in it, nothing else is to be checked. */
  lemma RefusedLastsIffNotClosed(before: seq<Action>, later: seq<Action>, id: int)
    requires Run(before).Some? && Refused(id) in Run(before).value.answered && Close(id) !in before
    requires Run(before + later).Some?
    ensures id in Run(before).value.pending
    ensures Registered(Run(before + later).value, id, Run(before).value.pending[id]) <==> Close(id) !in later
  {
    RefusedStaysPending(before, id);
    UnawaitedLastsIffNotClosed(before, later, id, Run(before).value.pending[id]);
  }

  /** Right after a CloseStream the id is free. */
  lemma ClosingRemoves(actions: seq<Action>, id: int)
    requires Run(actions).Some?
    ensures Run(actions + [Close(id)]).Some? && id !in Run(actions + [Close(id)]).value.pending
  {
    RunOneMore(actions, Close(id));
  }

  lemma RunOneMore(actions: seq<Action>, a: Action)
    ensures Run(actions + [a]) == if Run(actions).None? then None else Step(Run(actions).value, a)
  {
    assert (actions + [a])[..|actions|] == actions;
  }

  // The states of the shortest such run.

  function Alone(queue: seq<Message>, taken: seq<Message>): Channel { Channel(1, 0, OPEN_CAPACITY, queue, taken) }

  function AfterAllocate(): State { State(1, map[], [], None, [], map[0 := Allocated(1)], []) }

  function AfterRegister(): State {
    State(1, map[1 := 0], [Alone([], [])], None, [], map[0 := Waiting(1, 0, true)], [])
  }

  function AfterRoute(m: Message): State { AfterRegister().(sending := Some((0, m)), dispatched := [Dispatch(1, m)]) }

  function AfterSend(m: Message): State {
    AfterRegister().(channels := [Alone([m], [])], dispatched := [Dispatch(1, m)])
  }

  function AfterTake(m: Message): State {
    AfterSend(m).(channels := [Alone([], [m])], calls := map[], answered := [Refused(1)])
  }

  lemma AllocateAndRegister()
    ensures Step(INITIAL, Allocate(0)) == Some(AfterAllocate())
    ensures Step(AfterAllocate(), Register(0)) == Some(AfterRegister())
  {
    var t := Step(AfterAllocate(), Register(0)).value;
    assert t.pending == map[1 := 0] && t.calls == map[0 := Waiting(1, 0, true)];
    assert t.channels == AfterRegister().channels && t.dispatched == AfterRegister().dispatched;
  }

  lemma RouteAndSend(m: Message)
    ensures Step(AfterRegister(), Route(1, m)) == Some(AfterRoute(m))
    ensures Step(AfterRoute(m), Send) == Some(AfterSend(m))
  {
    assert Step(AfterRegister(), Route(1, m)).value.dispatched == AfterRoute(m).dispatched;
    var t := Step(AfterRoute(m), Send).value;
    var none: seq<Message> := [];
    assert none + [m] == [m];
    assert t.channels[0] == Alone([m], []);
    assert t.channels == [Alone([m], [])];
  }

  lemma TakeRefusal(m: Message)
    ensures Step(AfterSend(m), Take(0, false)) == Some(AfterTake(m))
  {
    var t := Step(AfterSend(m), Take(0, false)).value;
    var none: seq<Message> := [];
    assert none + [m] == [m] && [m][1..] == none;
    assert t.channels[0] == Alone([], [m]);
    assert t.calls == map[] && t.channels == AfterTake(m).channels && t.answered == AfterTake(m).answered;
  }

  /** The shortest such run: allocate id 1, register it, route the exit's answer, read it as a refusal. */
  lemma RefusalLeavesRegistration(answer: Message)
    ensures var run := Run([Allocate(0), Register(0), Route(1, answer), Send, Take(0, false)]);
      run.Some? && run.value.answered == [Refused(1)] && run.value.calls == map[] && run.value.pending == map[1 := 0]
  {
    var two, three := [Allocate(0), Register(0)], [Allocate(0), Register(0), Route(1, answer)];
    var four, five := three + [Send], [Allocate(0), Register(0), Route(1, answer), Send, Take(0, false)];
    assert [Allocate(0)] == [] + [Allocate(0)] && two == [Allocate(0)] + [Register(0)];
    assert three == two + [Route(1, answer)] && five == four + [Take(0, false)];
    AllocateAndRegister();
    RouteAndSend(answer);
    TakeRefusal(answer);
    RunOneMore([], Allocate(0));
    RunOneMore([Allocate(0)], Register(0));
    RunOneMore(two, Route(1, answer));
    RunOneMore(three, Send);
    RunOneMore(four, Take(0, false));
  }
}
