/** Whole calls and messages of the stream multiplexer, from any state it can be in. */
module StreamLife {
  import opened Basics
  import opened StreamIds
  import opened StreamMux

  /** The state after more steps, if all of them are enabled. */
  function Steps(s: State, actions: seq<Action>): Option<State> {
    if actions == [] then Some(s)
    else
      match Steps(s, actions[..|actions| - 1])
      case None => None
      case Some(t) => Step(t, actions[|actions| - 1])
  }

  /** Such steps continue a run. */
  lemma {:induction false} StepsContinueRun(before: seq<Action>, more: seq<Action>)
    requires Run(before).Some?
    ensures Run(before + more) == Steps(Run(before).value, more)
  {
    if more == [] {
      assert before + more == before;
    } else {
      var shorter, a := more[..|more| - 1], more[|more| - 1];
      StepsContinueRun(before, shorter);
      RunSplits(before, shorter, a);
      assert more == shorter + [a];
    }
  }

  lemma LastStep(s: State, actions: seq<Action>, a: Action)
    ensures Steps(s, actions + [a]) == if Steps(s, actions).None? then None else Step(Steps(s, actions).value, a)
  {
    assert (actions + [a])[..|actions|] == actions;
  }

  lemma TwoSteps(s: State, t: State, a: Action, b: Action)
    requires Step(s, a) == Some(t)
    ensures Steps(s, [a, b]) == Step(t, b)
  {
    LastStep(s, [], a);
    LastStep(s, [a], b);
    assert [] + [a] == [a] && [a] + [b] == [a, b];
  }

  // ----- a message and its receiver -----

  /** The handler brings a message to the channel of its stream when that has room. */
  function Delivered(s: State, stream: int, message: Message): State
    requires stream in s.pending && s.pending[stream] < |s.channels|
  {
    var c := s.pending[stream];
    s.(dispatched := s.dispatched + [Dispatch(stream, message)],
       channels := s.channels[c := s.channels[c].(queue := s.channels[c].queue + [message])])
  }

  lemma RoutedAndSent(s: State, stream: int, message: Message)
    requires s.sending.None? && stream in s.pending && s.pending[stream] < |s.channels|
    requires var ch := s.channels[s.pending[stream]]; |ch.queue| < ch.capacity
    ensures Steps(s, [Route(stream, message), Send]) == Some(Delivered(s, stream, message))
  {
    var c := s.pending[stream];
    var routed := s.(dispatched := s.dispatched + [Dispatch(stream, message)], sending := Some((c, message)));
    TwoSteps(s, routed, Route(stream, message), Send);
  }

  /** When the channel is full the send waits, and giving it up loses just that message. */
  lemma FullChannelLosesMessage(s: State, stream: int, message: Message)
    requires s.sending.None? && stream in s.pending && s.pending[stream] < |s.channels|
    requires var ch := s.channels[s.pending[stream]]; |ch.queue| >= ch.capacity
    ensures Steps(s, [Route(stream, message), Send]).None?
    ensures Steps(s, [Route(stream, message), Drop]) ==
            Some(s.(dispatched := s.dispatched + [Dispatch(stream, message)]))
  {
    var routed := s.(dispatched := s.dispatched + [Dispatch(stream, message)],
                     sending := Some((s.pending[stream], message)));
    TwoSteps(s, routed, Route(stream, message), Send);
    TwoSteps(s, routed, Route(stream, message), Drop);
  }

  /** A message for a stream that nobody registered is dropped at once. */
  lemma UnknownStreamIsIgnored(s: State, stream: int, message: Message)
    requires s.sending.None? && stream !in s.pending
    ensures Step(s, Route(stream, message)) == Some(s.(dispatched := s.dispatched + [Dispatch(stream, message)]))
  {
  }

  /** What a waiting call that receives from its channel leaves behind: the oldest message is its own. */
  function AfterReceive(s: State, call: nat, answer: Answered): State
    requires call in s.calls && s.calls[call].Waiting? && s.calls[call].channel < |s.channels|
    requires s.channels[s.calls[call].channel].queue != []
  {
    var c := s.calls[call].channel;
    var ch := s.channels[c];
    s.(calls := s.calls - {call}, answered := s.answered + [answer],
       channels := s.channels[c := ch.(queue := ch.queue[1..], taken := ch.taken + [ch.queue[0]])])
  }

  // ----- RecvData -----

  /** RecvData on a registered stream gets the oldest message waiting there. */
  lemma ReceivesOldest(s: State, call: nat, stream: int, success: bool)
    requires call !in s.calls && stream in s.pending && s.pending[stream] < |s.channels|
    requires s.channels[s.pending[stream]].queue != []
    ensures var c := s.pending[stream]; var ch := s.channels[c];
      Steps(s, [StartRecv(call, stream), Take(call, success)]) ==
      Some(s.(answered := s.answered + [Received(stream, ch.queue[0])],
              channels := s.channels[c := ch.(queue := ch.queue[1..], taken := ch.taken + [ch.queue[0]])]))
  {
    var waiting := s.(calls := s.calls[call := Waiting(stream, s.pending[stream], false)]);
    TwoSteps(s, waiting, StartRecv(call, stream), Take(call, success));
    assert waiting.calls - {call} == s.calls;
  }

  /** On a stream without a registration it makes one, with room for ten messages. */
  lemma ReceivingRegisters(s: State, call: nat, stream: int)
    requires call !in s.calls && stream !in s.pending
    ensures Step(s, StartRecv(call, stream)) ==
            Some(s.(pending := s.pending[stream := |s.channels|],
                    channels := s.channels + [Channel(stream, |s.dispatched|, 10, [], [])],
                    calls := s.calls[call := Waiting(stream, |s.channels|, false)]))
  {
  }

  /** Giving up leaves the registration and whatever waits there. */
  lemma GivenUpReceiveLeavesNothing(s: State, call: nat)
    requires call in s.calls && s.calls[call].Waiting? && !s.calls[call].opening
    ensures Step(s, GiveUpRecv(call)) == Some(s.(calls := s.calls - {call}))
  {
  }

  // ----- OpenStream -----

  /** An OpenStream whose id is free registers it, with room for one message. */
  lemma OpeningRegisters(s: State, call: nat)
    requires call !in s.calls && NextId(s.counter) !in s.pending
    ensures var id := NextId(s.counter);
      Steps(s, [Allocate(call), Register(call)]) ==
      Some(s.(counter := id, pending := s.pending[id := |s.channels|],
              channels := s.channels + [Channel(id, |s.dispatched|, 1, [], [])],
              calls := s.calls[call := Waiting(id, |s.channels|, true)]))
  {
    var id := NextId(s.counter);
    var given := s.(counter := id, calls := s.calls[call := Allocated(id)]);
    var registered := NewChannel(given, id, OPEN_CAPACITY)
                      .(calls := given.calls[call := Waiting(id, |s.channels|, true)]);
    TwoSteps(s, given, Allocate(call), Register(call));
    assert registered.calls == s.calls[call := Waiting(id, |s.channels|, true)];
  }

  /** One whose id is taken fails, and whoever has the id keeps it. */
  lemma TakenIdFails(s: State, call: nat)
    requires call !in s.calls && NextId(s.counter) in s.pending
    ensures Steps(s, [Allocate(call), Register(call)]) == Some(s.(counter := NextId(s.counter)))
  {
    var id := NextId(s.counter);
    var given := s.(counter := id, calls := s.calls[call := Allocated(id)]);
    TwoSteps(s, given, Allocate(call), Register(call));
    assert given.calls - {call} == s.calls;
  }

  /** A waiting OpenStream returns success or failure as the message it receives says. */
  lemma AnswerDecides(s: State, call: nat, success: bool)
    requires call in s.calls && s.calls[call].Waiting? && s.calls[call].opening
    requires s.calls[call].channel < |s.channels| && s.channels[s.calls[call].channel].queue != []
    ensures var id := s.calls[call].stream;
      Step(s, Take(call, success)) == Some(AfterReceive(s, call, if success then Connected(id) else Refused(id)))
  {
  }

  /** Giving up takes the registration back. */
  lemma GivenUpOpenUnregisters(s: State, call: nat)
    requires call in s.calls && s.calls[call].Waiting? && s.calls[call].opening
    ensures Step(s, GiveUpOpen(call)) ==
            Some(s.(calls := s.calls - {call}, pending := s.pending - {s.calls[call].stream}))
  {
  }

  /**
   The whole of an OpenStream that is answered, whatever else is going on: the stream is registered with a
   channel of its own, the answer is consumed, and the outcome is what the answer says.
   */
  lemma AnsweredOpen(s: State, call: nat, answer: Message, success: bool)
    requires call !in s.calls && NextId(s.counter) !in s.pending && s.sending.None?
    ensures var id := NextId(s.counter);
      var registered := Steps(s, [Allocate(call), Register(call)]);
      && registered.Some?
      && var sent := Steps(registered.value, [Route(id, answer), Send]);
      && sent.Some?
      && Step(sent.value, Take(call, success)) ==
         Some(s.(counter := id, pending := s.pending[id := |s.channels|],
                 channels := s.channels + [Channel(id, |s.dispatched|, 1, [], [answer])],
                 dispatched := s.dispatched + [Dispatch(id, answer)],
                 answered := s.answered + [if success then Connected(id) else Refused(id)]))
  {
    var id, n := NextId(s.counter), |s.channels|;
    OpeningRegisters(s, call);
    var registered := Steps(s, [Allocate(call), Register(call)]).value;
    RoutedAndSent(registered, id, answer);
    var sent := Delivered(registered, id, answer);
    assert sent.channels[n].queue == [answer];
    AnswerDecides(sent, call, success);
    var end := AfterReceive(sent, call, if success then Connected(id) else Refused(id));
    assert end.channels[n] == Channel(id, |s.dispatched|, 1, [], [answer]);
    assert end.channels == s.channels + [Channel(id, |s.dispatched|, 1, [], [answer])];
    assert end.calls == s.calls;
  }

  // ----- over every run -----

  /** The step is a receive by a call that waits on stream `id`. */
  predicate Takes(s: State, a: Action, id: int, opening: bool, success: bool) {
    && a.Take? && a.success == success && a.call in s.calls && s.calls[a.call].Waiting?
    && s.calls[a.call].stream == id && s.calls[a.call].opening == opening
  }

  ghost predicate TakesAt(actions: seq<Action>, k: int, id: int, opening: bool, success: bool)
    requires 0 <= k < |actions|
  {
    Run(actions[..k]).Some? && Takes(Run(actions[..k]).value, actions[k], id, opening, success)
  }

  ghost predicate SomeTake(actions: seq<Action>, id: int, opening: bool, success: bool) {
    exists k :: 0 <= k < |actions| && TakesAt(actions, k, id, opening, success)
  }

  lemma TakeOneMore(before: seq<Action>, a: Action, id: int, opening: bool, success: bool)
    requires Run(before).Some?
    ensures SomeTake(before + [a], id, opening, success) <==>
            SomeTake(before, id, opening, success) || Takes(Run(before).value, a, id, opening, success)
  {
    var actions := before + [a];
    assert actions[..|before|] == before;
    assert TakesAt(actions, |before|, id, opening, success) <==> Takes(Run(before).value, a, id, opening, success);
    forall k | 0 <= k < |before|
      ensures TakesAt(actions, k, id, opening, success) <==> TakesAt(before, k, id, opening, success)
    {
      assert actions[..k] == before[..k];
    }
  }

  lemma AnsweredStep(s: State, a: Action, id: int)
    requires Step(s, a).Some?
    ensures var t := Step(s, a).value;
      && (Connected(id) in t.answered <==> Connected(id) in s.answered || Takes(s, a, id, true, true))
      && (Refused(id) in t.answered <==> Refused(id) in s.answered || Takes(s, a, id, true, false))
  {
  }

  /**
   An OpenStream on `id` succeeded exactly if one that waited on it received an answer that reports success,
   and was refused exactly if one received an answer that does not.
   */
  lemma {:induction false} OpenedIffConfirmed(actions: seq<Action>, id: int)
    requires Run(actions).Some?
    ensures Connected(id) in Run(actions).value.answered <==> SomeTake(actions, id, true, true)
    ensures Refused(id) in Run(actions).value.answered <==> SomeTake(actions, id, true, false)
  {
    if actions != [] {
      var before, a := actions[..|actions| - 1], actions[|actions| - 1];
      assert actions == before + [a];
      OpenedIffConfirmed(before, id);
      AnsweredStep(Run(before).value, a, id);
      TakeOneMore(before, a, id, true, true);
      TakeOneMore(before, a, id, true, false);
    }
  }

  /** What the handler sent into channel c, in order. */
  ghost function SentTo(actions: seq<Action>, c: nat): seq<Message> {
    if actions == [] then []
    else
      var before, a := Run(actions[..|actions| - 1]), actions[|actions| - 1];
      var rest := SentTo(actions[..|actions| - 1], c);
      if a.Send? && before.Some? && before.value.sending.Some? && before.value.sending.value.0 == c
      then rest + [before.value.sending.value.1] else rest
  }

  /**
   Nothing is lost or reordered once it is in a channel: what receivers took, followed by what still waits, is
   exactly what was sent there.
   */
  lemma {:induction false} ChannelsConserveMessages(actions: seq<Action>, c: nat)
    requires Run(actions).Some?
    ensures SentTo(actions, c) == AcceptedBy(Run(actions).value, c)
  {
    if actions != [] {
      var before, a := actions[..|actions| - 1], actions[|actions| - 1];
      ChannelsConserveMessages(before, c);
      RunKeepsInv(before);
      ChannelStep(Run(before).value, a, c);
    }
  }

  function AcceptedBy(s: State, c: nat): seq<Message> {
    if c < |s.channels| then Accepted(s.channels[c]) else []
  }

  /** One step on channel c: a send appends, and a receive moves the oldest message over. */
  lemma ChannelStep(s: State, a: Action, c: nat)
    requires Inv(s) && Step(s, a).Some?
    ensures AcceptedBy(Step(s, a).value, c) ==
            AcceptedBy(s, c) + if a.Send? && s.sending.value.0 == c then [s.sending.value.1] else []
  {
    match a {
      case Take(call, success) => TakeKeepsAccepted(s, call, success, c);
      case Send => SendAppends(s, c);
      case Register(call) => NewChannelIsEmpty(s, Step(s, a).value, c);
      case StartRecv(call, stream) => NewChannelIsEmpty(s, Step(s, a).value, c);
      case _ => assert Step(s, a).value.channels == s.channels;
    }
  }

  lemma TakeKeepsAccepted(s: State, call: nat, success: bool, c: nat)
    requires Step(s, Take(call, success)).Some?
    ensures AcceptedBy(Step(s, Take(call, success)).value, c) == AcceptedBy(s, c)
  {
    var t, w := Step(s, Take(call, success)).value, s.calls[call].channel;
    assert Accepted(t.channels[w]) == Accepted(s.channels[w]);
  }

  lemma SendAppends(s: State, c: nat)
    requires Step(s, Send).Some?
    ensures AcceptedBy(Step(s, Send).value, c) ==
            AcceptedBy(s, c) + if s.sending.value.0 == c then [s.sending.value.1] else []
  {
    var t := Step(s, Send).value;
    var (w, m) := s.sending.value;
    assert Accepted(t.channels[w]) == Accepted(s.channels[w]) + [m];
  }

  lemma NewChannelIsEmpty(s: State, t: State, c: nat)
    requires t.channels == s.channels ||
             (|t.channels| == |s.channels| + 1 && t.channels[..|s.channels|] == s.channels
              && Accepted(t.channels[|s.channels|]) == [])
    ensures AcceptedBy(t, c) == AcceptedBy(s, c)
  {
    if t.channels != s.channels && c < |s.channels| {
      assert t.channels[c] == t.channels[..|s.channels|][c];
    }
  }

  /** So the next receive from a channel gets the message that follows those already taken. */
  lemma ReceivesAreInOrder(actions: seq<Action>, call: nat, success: bool)
    requires Run(actions).Some? && Step(Run(actions).value, Take(call, success)).Some?
    requires !Run(actions).value.calls[call].opening
    ensures var s := Run(actions).value; var c := s.calls[call].channel;
      && |s.channels[c].taken| < |SentTo(actions, c)|
      && Step(s, Take(call, success)).value.answered ==
         s.answered + [Received(s.calls[call].stream, SentTo(actions, c)[|s.channels[c].taken|])]
  {
    ChannelsConserveMessages(actions, Run(actions).value.calls[call].channel);
  }

  /** Every message routed to a registered stream is sent, is given up, or is the one being sent. */
  lemma {:induction false} RoutedAreAccountedFor(actions: seq<Action>)
    requires Run(actions).Some?
    ensures Routed(actions) == Count(actions, Send) + Count(actions, Drop) + One(Run(actions).value.sending.Some?)
  {
    if actions != [] {
      RoutedAreAccountedFor(actions[..|actions| - 1]);
    }
  }

  ghost function Count(actions: seq<Action>, a: Action): nat {
    if actions == [] then 0 else Count(actions[..|actions| - 1], a) + One(actions[|actions| - 1] == a)
  }

  ghost function Routed(actions: seq<Action>): nat {
    if actions == [] then 0
    else
      var before, a := Run(actions[..|actions| - 1]), actions[|actions| - 1];
      Routed(actions[..|actions| - 1]) + One(a.Route? && before.Some? && a.stream in before.value.pending)
  }

  /** The ids that OpenStream calls were given, in order. */
  ghost function AllocatedIds(actions: seq<Action>): seq<int> {
    if actions == [] then []
    else
      var a, after := actions[|actions| - 1], Run(actions);
      var rest := AllocatedIds(actions[..|actions| - 1]);
      if a.Allocate? && after.Some? && a.call in after.value.calls
      then rest + [after.value.calls[a.call].stream] else rest
  }

  lemma CounterStep(s: State, a: Action)
    requires Step(s, a).Some?
    ensures var t := Step(s, a).value;
      if a.Allocate? then t.counter == NextId(s.counter) && a.call in t.calls && t.calls[a.call].stream == t.counter
      else t.counter == s.counter
  {
  }

  lemma AllocatedLast(actions: seq<Action>)
    requires actions != [] && Run(actions).Some?
    ensures var before, a := actions[..|actions| - 1], actions[|actions| - 1];
      && Run(before).Some?
      && var id := NextId(Run(before).value.counter);
         && AllocatedIds(actions) == AllocatedIds(before) + (if a.Allocate? then [id] else [])
         && Run(actions).value.counter == if a.Allocate? then id else Run(before).value.counter
  {
    CounterStep(Run(actions[..|actions| - 1]).value, actions[|actions| - 1]);
  }

  /** The ids are those the counter hands out from 0 on, and it stands at the last of them. */
  ghost predicate Follows(ids: seq<int>, counter: uint32) {
    && counter == (if ids == [] then 0 else NthId(0, |ids| - 1))
    && forall k :: 0 <= k < |ids| ==> ids[k] == NthId(0, k)
  }

  lemma FollowsOneMore(ids: seq<int>, counter: uint32)
    requires Follows(ids, counter)
    ensures Follows(ids + [NextId(counter)], NextId(counter))
  {
  }

  lemma {:induction false} IdsFollowCounter(actions: seq<Action>)
    requires Run(actions).Some?
    ensures Follows(AllocatedIds(actions), Run(actions).value.counter)
  {
    if actions != [] {
      var before, a := actions[..|actions| - 1], actions[|actions| - 1];
      IdsFollowCounter(before);
      AllocatedLast(actions);
      if a.Allocate? {
        FollowsOneMore(AllocatedIds(before), Run(before).value.counter);
      }
    }
  }

  /**
   Over every run, two OpenStream calls are given the same id exactly when a multiple of 4294967295 allocations
   lies between theirs, and none is given 0.
   */
  lemma AllocationsAreApart(actions: seq<Action>, j: nat, k: nat)
    requires Run(actions).Some? && j < k < |AllocatedIds(actions)|
    ensures AllocatedIds(actions)[j] == AllocatedIds(actions)[k] <==> (k - j) % 4294967295 == 0
    ensures 1 <= AllocatedIds(actions)[j] <= 4294967295
  {
    IdsFollowCounter(actions);
    IdsRepeatOnlyAfterFullCycle(0, j, k);
  }
}
