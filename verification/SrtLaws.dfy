/** What the calls of the client return over a run, and that what was lost can be made good. */
module SrtLaws {
  import opened Srt

  // ---------------------------------------------------------------- at the door of a call

  /** A call that is refused returns -1 and changes nothing; nothing else sets the result outside of a
      call. */
  lemma RefusedCall(run: seq<State>, i: nat)
    requires Run(run) && i + 1 < |run| && run[i].control == Idle && run[i + 1].control == Idle
    ensures run[i + 1].returned == run[i].returned || run[i + 1] == run[i].(returned := -1)
  {
    RunNext(run, i);
    hide Run;
  }

  /** A call is begun in the right state only, with all its tries ahead, and begins by changing nothing
      else. */
  lemma BegunCall(run: seq<State>, i: nat)
    requires Run(run) && i + 1 < |run| && run[i].control == Idle && run[i + 1].control != Idle
    ensures run[i + 1].control == AtLoop(run[i + 1].control.call, 5)
    ensures InCall(run[i + 1], Connect) ==>
      run[i].client == CLOSED
      && run[i + 1] == run[i].(control := run[i + 1].control, connectCalled := true)
    ensures InCall(run[i + 1], Disconnect) ==>
      run[i].client == CONNECTED
      && run[i + 1] == run[i].(control := run[i + 1].control, disconnectCalled := true)
  {
    RunNext(run, i);
    hide Run;
  }

  /** What a 0 is worth: it comes from a connect and means a client that is connected to a server that
      took part, or from a disconnect and means a server in CLOSEWAIT. */
  lemma ZeroMeans(run: seq<State>, i: nat)
    requires Run(run) && i + 1 < |run| && run[i].returned != 0 && run[i + 1].returned == 0
    ensures
      || (InCall(run[i], Connect) && run[i + 1].client == CONNECTED && Up(run[i + 1]))
      || (InCall(run[i], Disconnect) && run[i + 1].client == CLOSED && run[i + 1].server == CloseWait)
  {
    RunNext(run, i);
    hide Run;
    CallEnds(run[i], run[i + 1]);
    hide Run, Next;
    if InCall(run[i], Connect) {
      ConnectReturnsZero(run, i);
      RunInv(run, i + 1);
    } else {
      DisconnectReturnsZero(run, i);
    }
  }

  lemma CallEnds(s: State, t: State)
    requires Next(s, t) && s.returned != 0 && t.returned == 0
    ensures s.control != Idle && t.control == Idle
  {
  }

  // ---------------------------------------------------------------- on the wire

  /** Whatever is on its way bears the right ports: the client's segments name both ends, the server's
      its own port, and the client's or the one it had in mind before. */
  ghost predicate Addressed(s: State) {
    && (forall g :: g in s.toServer ==> g.srcPort == s.ports.client && g.destPort == s.ports.server)
    && (forall g :: g in s.toClient ==>
         g.srcPort == s.ports.server && (g.destPort == s.ports.client || g.destPort == s.ports.before))
  }

  lemma NextAddressed(s: State, t: State)
    requires Inv(s) && Addressed(s) && Next(s, t)
    ensures Addressed(t)
  {
    NewSegments(s, t);
    hide ChannelInv, ClientInv, Next;
  }

  lemma NewSegments(s: State, t: State)
    requires Next(s, t)
    ensures t.ports == s.ports
    ensures forall g :: g in t.toServer ==>
      g in s.toServer || (g.srcPort == s.ports.client && g.destPort == s.ports.server)
    ensures forall g :: g in t.toClient ==>
      g in s.toClient || (g.srcPort == s.ports.server && g.destPort == s.clientPortNum)
  {
    SentByServer(s, t);
    SentByClient(s, t);
  }

  lemma SentByClient(s: State, t: State)
    requires Next(s, t)
    ensures t.ports == s.ports
    ensures t.toServer == s.toServer || (s.toServer != [] && t.toServer == s.toServer[1..])
            || exists typ :: t.toServer == s.toServer + [Segment(typ, s.ports.client, s.ports.server)]
  {
    if Send(s, t) {
      var typ := if s.control.call.Connect? then SYN else FIN;
      assert t.toServer == s.toServer + [Segment(typ, s.ports.client, s.ports.server)];
    }
  }

  lemma SentByServer(s: State, t: State)
    requires Next(s, t)
    ensures t.toClient == s.toClient || (s.toClient != [] && t.toClient == s.toClient[1..])
            || exists typ :: t.toClient == s.toClient + [Segment(typ, s.ports.server, s.clientPortNum)]
  {
    if ServerReceives(s, t) && s.toServer[0].destPort == s.ports.server {
      var reply := ServerHandler(s.server, s.toServer[0].typ).1;
      assert reply == [] ==> t.toClient == s.toClient + [];
      assert reply != [] ==> t.toClient == s.toClient + [Segment(reply[0], s.ports.server, s.clientPortNum)];
    }
  }

  lemma {:induction false} RunAddressed(run: seq<State>, i: nat)
    requires Run(run) && i < |run|
    ensures Addressed(run[i])
    decreases i
  {
    if i == 0 {
    } else {
      RunNext(run, i - 1);
      hide Run, Next, Addressed;
      RunAddressed(run, i - 1);
      RunInv(run, i - 1);
      NextAddressed(run[i - 1], run[i]);
    }
  }

  // ---------------------------------------------------------------- recovery

  /** run' goes on from run. */
  ghost predicate Continues(run: seq<State>, run': seq<State>) {
    Run(run) && Run(run') && run <= run'
  }

  /** Everything on its way can be lost. */
  lemma {:induction false} LoseAll(run: seq<State>) returns (run': seq<State>)
    requires Run(run)
    ensures Continues(run, run')
    ensures run'[|run'| - 1] == run[|run| - 1].(toServer := [], toClient := [])
    decreases |run[|run| - 1].toServer| + |run[|run| - 1].toClient|
  {
    var s := run[|run| - 1];
    if s.toServer == [] && s.toClient == [] {
      run' := run;
    } else {
      var t := if s.toClient != [] then s.(toClient := s.toClient[1..]) else s.(toServer := s.toServer[1..]);
      assert Lose(s, t) && Next(s, t);
      hide Run, Next;
      Extend(run, t);
      run' := LoseAll(run + [t]);
    }
  }

  /** One try on an empty channel, answered: the server's reply and what the client makes of it. */
  lemma TryAnswered(run: seq<State>) returns (run': seq<State>)
    requires Run(run)
    requires var s := run[|run| - 1];
             && s.control.AtLoop? && s.control.tryNum >= 2 && s.toServer == [] && s.toClient == []
             && ServerHandler(s.server, Request(s.control.call, s.ports).typ).1 != []
    ensures Continues(run, run')
    ensures var s, c := run[|run| - 1], run[|run| - 1].control;
            var sent := s.(control := AtCheck(c.call, c.tryNum - 1), client := MidState(c.call),
                           toServer := [Request(c.call, s.ports)]);
            && Answerable(sent) && |Answered(sent).toClient| == 1 && Delivered(Answered(sent)).control.AtCheck?
            && run'[|run'| - 1] == Checked(Delivered(Answered(sent)))
  {
    var s := run[|run| - 1];
    assert s.toServer + [Request(s.control.call, s.ports)] == [Request(s.control.call, s.ports)];
    var run1 := OneTry(run);
    run' := OneExchange(run1);
  }

  /** A FIN is answered, and again if the answer is lost. */
  lemma FinIsAnswered(run: seq<State>) returns (run': seq<State>)
    requires Run(run)
    requires var s := run[|run| - 1];
             && s.control.AtLoop? && s.control.call == Disconnect && s.control.tryNum >= 2
             && s.toServer == [] && s.toClient == []
    ensures Continues(run, run')
    ensures run'[|run'| - 1].control == Idle && run'[|run'| - 1].returned == 0
  {
    RunInv(run, |run| - 1);
    run' := TryAnswered(run);
  }

  /** Whatever was lost before: as long as a disconnect has a try left, it can still return 0. */
  lemma DisconnectRecovers(run: seq<State>) returns (run': seq<State>)
    requires Run(run) && run[|run| - 1].control.AtLoop? && run[|run| - 1].control.call == Disconnect
    requires run[|run| - 1].control.tryNum >= 2
    ensures Continues(run, run')
    ensures run'[|run'| - 1].control == Idle && run'[|run'| - 1].returned == 0
  {
    var run1 := LoseAll(run);
    run' := FinIsAnswered(run1);
  }

  /** A SYN is answered by a server that listens or is connected; the answer reaches the client if it is
      addressed to it. */
  lemma SynIsAnswered(run: seq<State>) returns (run': seq<State>)
    requires Run(run)
    requires var s := run[|run| - 1];
             && s.control.AtLoop? && s.control.call == Connect && s.control.tryNum >= 2
             && s.toServer == [] && s.toClient == [] && (s.server == Listening || s.server == ServerConnected)
    ensures Continues(run, run')
    ensures var s, t := run[|run| - 1], run'[|run'| - 1];
            && t.server == ServerConnected && t.toServer == [] && t.toClient == []
            && t.ports == s.ports && t.accepted == s.accepted && t.clientPortNum == t.ports.client
            && if s.clientPortNum == s.ports.client then t.control == Idle && t.returned == 0
               else t.control == AtLoop(Connect, s.control.tryNum - 1)
  {
    RunInv(run, |run| - 1);
    run' := TryAnswered(run);
  }

  /** A connect that has a try left can still return 0 if the server knows the client's port; the try
      that tells it the port costs one more. */
  lemma ConnectRecovers(run: seq<State>) returns (run': seq<State>)
    requires Run(run)
    requires var s := run[|run| - 1];
             && s.control.AtLoop? && s.control.call == Connect && s.accepted && s.server != CloseWait
             && s.control.tryNum >= if s.clientPortNum == s.ports.client then 2 else 3
    ensures Continues(run, run')
    ensures run'[|run'| - 1].control == Idle && run'[|run'| - 1].returned == 0
  {
    RunInv(run, |run| - 1);
    AcceptedListens(run, |run| - 1);
    var run1 := LoseAll(run);
    run' := SynIsAnswered(run1);
    if run'[|run'| - 1].control != Idle {
      run' := SynIsAnswered(run');
    }
  }

  lemma {:induction false} AcceptedListens(run: seq<State>, i: nat)
    requires Run(run) && i < |run|
    ensures run[i].accepted ==> run[i].server != ServerClosed
    decreases i
  {
    if i == 0 {
    } else {
      RunNext(run, i - 1);
      hide Run, Next;
      AcceptedListens(run, i - 1);
      StepListens(run[i - 1], run[i]);
    }
  }

  lemma StepListens(s: State, t: State)
    requires Next(s, t) && (s.accepted ==> s.server != ServerClosed)
    ensures t.accepted ==> t.server != ServerClosed
  {
  }

  // ---------------------------------------------------------------- who changes what

  /** The server answers a SYN while it listens or is connected, with a SYNACK, and is connected then; a
      FIN while it is connected or closing, with a FINACK, and is closing then; and nothing else. */
  lemma ServerAnswers(run: seq<State>, i: nat)
    requires Run(run) && i + 1 < |run| && run[i + 1].replies != run[i].replies
    ensures var s, t := run[i], run[i + 1];
            && t.replies == s.replies + 1 && s.toServer != [] && t.toClient != [] && t.toServer == s.toServer[1..]
            && var typ, answer := s.toServer[0].typ, t.toClient[|t.toClient| - 1].typ;
               || (typ == SYN && answer == SYNACK && t.server == ServerConnected
                   && (s.server == Listening || s.server == ServerConnected))
               || (typ == FIN && answer == FINACK && t.server == CloseWait
                   && (s.server == ServerConnected || s.server == CloseWait))
  {
    RunNext(run, i);
    hide Run;
    ServerActs(run[i], run[i + 1]);
    hide Next;
  }

  lemma ServerActs(s: State, t: State)
    requires Next(s, t) && (s.replies != t.replies || s.server != t.server)
    ensures ServerReceives(s, t) || Accept(s, t)
  {
    hide ServerReceives, Accept;
  }

  /** The server changes its state with an answer or when it is told to accept. */
  lemma ServerChanges(run: seq<State>, i: nat)
    requires Run(run) && i + 1 < |run| && run[i + 1].server != run[i].server
    ensures run[i + 1].replies != run[i].replies || (!run[i].accepted && run[i + 1].server == Listening)
  {
    RunNext(run, i);
    hide Run;
    ServerActs(run[i], run[i + 1]);
    hide Next;
  }

  /** The client's state changes with the write and the failure of a call, and with the answer that it
      waits for. */
  lemma ClientChanges(run: seq<State>, i: nat)
    requires Run(run) && i + 1 < |run| && run[i + 1].client != run[i].client
    ensures var s, t := run[i], run[i + 1];
            if t.control != s.control then ChangedByCall(s, t) else ChangedByAnswer(s, t)
  {
    RunNext(run, i);
    hide Run;
    ChangesClient(run[i], run[i + 1]);
    hide Next;
    if ClientReceives(run[i], run[i + 1]) {
      AnswerChanges(run[i], run[i + 1]);
    } else {
      CallChanges(run[i], run[i + 1]);
    }
  }

  predicate ChangedByCall(s: State, t: State) {
    && s.control != Idle
    && if t.control.AtCheck? then t.client == (if s.control.call == Connect then SYNSENT else FINWAIT)
       else t.control == Idle && t.client == CLOSED && t.returned == -1
  }

  predicate ChangedByAnswer(s: State, t: State) {
    && s.toClient != [] && t == s.(toClient := s.toClient[1..], client := t.client)
    && s.toClient[0].destPort == s.ports.client
    && if s.client == SYNSENT then s.toClient[0].typ == SYNACK && t.client == CONNECTED
       else s.client == FINWAIT && s.toClient[0].typ == FINACK && t.client == CLOSED
  }

  lemma ChangesClient(s: State, t: State)
    requires Next(s, t) && s.client != t.client
    ensures ClientReceives(s, t) || Write(s, t) || Fail(s, t)
  {
    hide ClientReceives, Write, Fail;
  }

  lemma AnswerChanges(s: State, t: State)
    requires ClientReceives(s, t) && s.client != t.client
    ensures t.control == s.control && ChangedByAnswer(s, t)
  {
  }

  lemma CallChanges(s: State, t: State)
    requires (Write(s, t) || Fail(s, t)) && s.client != t.client
    ensures t.control != s.control && ChangedByCall(s, t)
  {
  }
}
