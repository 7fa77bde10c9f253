/** The connection protocol: one client socket, one server socket accepted once, and between them
    an overlay connection that keeps order and may lose any segment.  try_send and the two segment
    handlers interleave; each send, state write and state check of try_send is a step of its own. */
module Srt {

  datatype SegType = SYN | SYNACK | FIN | FINACK | DATA | DATAACK

  datatype Segment = Segment(typ: SegType, srcPort: nat, destPort: nat)

  datatype ClientState = CLOSED | SYNSENT | CONNECTED | FINWAIT

  datatype ServerState = ServerClosed | Listening | ServerConnected | CloseWait

  const SYN_MAX_RETRY := 5
  const FIN_MAX_RETRY := 5

  /** The call that is inside try_send. */
  datatype Call = Connect | Disconnect

  /** Where the application's thread is: outside, or inside try_send with its counter. */
  datatype Control =
    | Idle
    | AtLoop(call: Call, tryNum: nat)
    | AtSend(call: Call, tryNum: nat)
    | AtWrite(call: Call, tryNum: nat)
    | AtCheck(call: Call, tryNum: nat)
    | AtFail(call: Call)

  /** The ports: the client's, the server's, and what client_portNum holds before the first SYN. */
  datatype Ports = Ports(client: nat, server: nat, before: nat)

  datatype State = State(
    ports: Ports,
    client: ClientState,
    control: Control,
    returned: int,              // what the last finished call returned; 1 when there is none
    server: ServerState,
    clientPortNum: nat,         // the server's idea of the client's port
    toServer: seq<Segment>,
    toClient: seq<Segment>,
    accepted: bool,             // srt_server_accept has been called
    connectCalled: bool,        // srt_client_connect has entered try_send
    disconnectCalled: bool,     // srt_client_disconnect has entered try_send
    replies: nat)               // how many segments the server has sent

  // ---------------------------------------------------------------- the code

  function MidState(c: Call): ClientState { if c.Connect? then SYNSENT else FINWAIT }

  function DestState(c: Call): ClientState { if c.Connect? then CONNECTED else CLOSED }

  function Request(c: Call, p: Ports): Segment {
    Segment(if c.Connect? then SYN else FIN, p.client, p.server)
  }

  /** The switch of the client's seghandler. */
  function ClientHandler(state: ClientState, typ: SegType): ClientState {
    match state
    case CLOSED => CLOSED
    case SYNSENT => if typ == SYNACK then CONNECTED else SYNSENT
    case CONNECTED => CONNECTED
    case FINWAIT => if typ == FINACK then CLOSED else FINWAIT
  }

  /** The switch of the server's seghandler: the new state and the type of the reply, if any. */
  function ServerHandler(state: ServerState, typ: SegType): (ServerState, seq<SegType>) {
    match state
    case ServerClosed => (ServerClosed, [])
    case Listening => if typ == SYN then (ServerConnected, [SYNACK]) else (Listening, [])
    case ServerConnected =>
      if typ == SYN then (ServerConnected, [SYNACK])
      else if typ == FIN then (CloseWait, [FINACK])
      else (ServerConnected, [])
    case CloseWait => if typ == FIN then (CloseWait, [FINACK]) else (CloseWait, [])
  }

  // ---------------------------------------------------------------- the steps

  ghost predicate Init(s: State) {
    s == State(s.ports, CLOSED, Idle, 1, ServerClosed, s.ports.before, [], [], false, false, false, 0)
  }

  ghost predicate CallConnect(s: State, t: State) {
    && s.control == Idle
    && t == if s.client != CLOSED then s.(returned := -1)
            else s.(control := AtLoop(Connect, SYN_MAX_RETRY), connectCalled := true)
  }

  ghost predicate CallDisconnect(s: State, t: State) {
    && s.control == Idle
    && t == if s.client != CONNECTED then s.(returned := -1)
            else s.(control := AtLoop(Disconnect, FIN_MAX_RETRY), disconnectCalled := true)
  }

  /** while(--tryNum) */
  ghost predicate Loop(s: State, t: State) {
    && s.control.AtLoop? && s.control.tryNum >= 1
    && t == s.(control := if s.control.tryNum - 1 == 0 then AtFail(s.control.call)
                          else AtSend(s.control.call, s.control.tryNum - 1))
  }

  ghost predicate Send(s: State, t: State) {
    && s.control.AtSend?
    && t == s.(control := AtWrite(s.control.call, s.control.tryNum),
               toServer := s.toServer + [Request(s.control.call, s.ports)])
  }

  ghost predicate Write(s: State, t: State) {
    && s.control.AtWrite?
    && t == s.(control := AtCheck(s.control.call, s.control.tryNum), client := MidState(s.control.call))
  }

  ghost predicate Check(s: State, t: State) {
    && s.control.AtCheck?
    && t == if s.client == DestState(s.control.call) then s.(control := Idle, returned := 0)
            else s.(control := AtLoop(s.control.call, s.control.tryNum))
  }

  ghost predicate Fail(s: State, t: State) {
    && s.control.AtFail?
    && t == s.(control := Idle, client := CLOSED, returned := -1)
  }

  /** The client's thread takes the next segment; one for another port is skipped. */
  ghost predicate ClientReceives(s: State, t: State) {
    && s.toClient != []
    && var seg := s.toClient[0];
       t == s.(toClient := s.toClient[1..],
               client := if seg.destPort == s.ports.client then ClientHandler(s.client, seg.typ) else s.client)
  }

  /** srt_server_accept, called at most once. */
  ghost predicate Accept(s: State, t: State) {
    !s.accepted && t == s.(accepted := true, server := Listening)
  }

  /** The server's thread takes the next segment.  The reply is addressed before client_portNum is set. */
  ghost predicate ServerReceives(s: State, t: State) {
    && s.toServer != []
    && var seg := s.toServer[0];
       var rest := s.(toServer := s.toServer[1..]);
       if seg.destPort != s.ports.server then t == rest
       else
         var (server', reply) := ServerHandler(s.server, seg.typ);
         t == rest.(
           server := server',
           clientPortNum := if s.server == Listening && seg.typ == SYN then seg.srcPort else s.clientPortNum,
           toClient := s.toClient + (if reply == [] then [] else [Segment(reply[0], s.ports.server, s.clientPortNum)]),
           replies := s.replies + |reply|)
  }

  /** A segment is lost. */
  ghost predicate Lose(s: State, t: State) {
    || (s.toClient != [] && t == s.(toClient := s.toClient[1..]))
    || (s.toServer != [] && t == s.(toServer := s.toServer[1..]))
  }

  ghost predicate Next(s: State, t: State) {
    || CallConnect(s, t) || CallDisconnect(s, t)
    || Loop(s, t) || Send(s, t) || Write(s, t) || Check(s, t) || Fail(s, t)
    || ClientReceives(s, t) || Accept(s, t) || ServerReceives(s, t) || Lose(s, t)
  }

  /** A run of the protocol from its start. */
  ghost predicate Run(run: seq<State>) {
    && run != [] && Init(run[0])
    && forall i :: 0 <= i < |run| - 1 ==> Next(run[i], run[i + 1])
  }

  lemma RunNext(run: seq<State>, i: nat)
    requires Run(run) && i + 1 < |run|
    ensures Next(run[i], run[i + 1])
  {
  }

  // ---------------------------------------------------------------- the invariant

  /** The server has taken part in a handshake. */
  predicate Up(s: State) { s.server == ServerConnected || s.server == CloseWait }

  predicate InCall(s: State, c: Call) { s.control != Idle && s.control.call == c }

  /** The server knows the client's port, or was born with it, and has said so. */
  predicate Introduced(s: State) { s.ports.before == s.ports.client || s.replies >= 2 }

  /** A segment that may be on its way to the server, or to the client. */
  predicate MayReachServer(s: State, g: Segment) {
    && (g == Request(Connect, s.ports) || g == Request(Disconnect, s.ports))
    && (g.typ == FIN ==> Up(s) && Introduced(s) && s.disconnectCalled)
    && (g.typ == SYN ==> s.connectCalled)
  }

  predicate MayReachClient(s: State, g: Segment) {
    && (g.typ == SYNACK || g.typ == FINACK)
    && Up(s)
    && (g.typ == FINACK ==> s.server == CloseWait)
    && (g.destPort == s.ports.client ==> Introduced(s))
  }

  ghost predicate ChannelInv(s: State) {
    && (forall g :: g in s.toServer ==> MayReachServer(s, g))
    && (forall g :: g in s.toClient ==> MayReachClient(s, g))
  }

  ghost predicate ClientInv(s: State) {
    && (s.client == CONNECTED ==> Up(s) && Introduced(s))
    && (s.client == SYNSENT ==> InCall(s, Connect))
    && (s.client == FINWAIT ==> InCall(s, Disconnect))
    && (InCall(s, Disconnect) ==> Up(s) && Introduced(s) && s.disconnectCalled)
    && (InCall(s, Disconnect) && s.client == CLOSED ==> s.server == CloseWait)
    && (InCall(s, Connect) ==> s.connectCalled)
    && (s.control.AtLoop? ==> 1 <= s.control.tryNum <= 5)
    && (s.control.AtSend? || s.control.AtWrite? || s.control.AtCheck? ==> 1 <= s.control.tryNum <= 4)
  }

  ghost predicate ServerInv(s: State) {
    && (s.server != ServerClosed ==> s.accepted)
    && (Up(s) <==> s.replies >= 1)
    && (Up(s) ==> s.connectCalled)
    && (s.server == CloseWait ==> s.disconnectCalled)
    && s.clientPortNum == if Up(s) then s.ports.client else s.ports.before
  }

  ghost predicate Inv(s: State) {
    ChannelInv(s) && ClientInv(s) && ServerInv(s)
  }

  lemma InitInv(s: State)
    requires Init(s)
    ensures Inv(s)
  {
  }

  lemma NextInv(s: State, t: State)
    requires Inv(s) && Next(s, t)
    ensures Inv(t)
  {
    hide Inv;
    if ClientReceives(s, t) {
      ClientReceivesInv(s, t);
    } else if ServerReceives(s, t) {
      ServerReceivesInv(s, t);
    } else if Lose(s, t) {
      LoseInv(s, t);
    } else if Accept(s, t) {
      AcceptInv(s, t);
    } else if Send(s, t) {
      SendInv(s, t);
    } else {
      ThreadInv(s, t);
    }
  }

  /** What a segment in transit relies on is never undone. */
  predicate Grows(s: State, t: State) {
    && t.ports == s.ports && (s.connectCalled ==> t.connectCalled) && (s.disconnectCalled ==> t.disconnectCalled)
    && (Up(s) ==> Up(t)) && (s.server == CloseWait ==> t.server == CloseWait) && s.replies <= t.replies
  }

  /** Segments already in transit stay legitimate, so only new ones need an argument. */
  lemma Transit(s: State, t: State)
    requires ChannelInv(s) && Grows(s, t)
    requires forall g :: g in t.toServer ==> g in s.toServer || MayReachServer(t, g)
    requires forall g :: g in t.toClient ==> g in s.toClient || MayReachClient(t, g)
    ensures ChannelInv(t)
  {
    forall g | g in t.toServer ensures MayReachServer(t, g) {
      assert g in s.toServer ==> MayReachServer(s, g);
    }
    forall g | g in t.toClient ensures MayReachClient(t, g) {
      assert g in s.toClient ==> MayReachClient(s, g);
    }
  }

  lemma AcceptInv(s: State, t: State)
    requires Inv(s) && Accept(s, t)
    ensures Inv(t)
  {
    Transit(s, t);
  }

  lemma SendInv(s: State, t: State)
    requires Inv(s) && Send(s, t)
    ensures Inv(t)
  {
    Transit(s, t);
  }

  /** The other steps of the client's thread leave the channels alone. */
  lemma ThreadInv(s: State, t: State)
    requires Inv(s)
    requires CallConnect(s, t) || CallDisconnect(s, t) || Loop(s, t) || Write(s, t) || Check(s, t) || Fail(s, t)
    ensures Inv(t)
  {
    Transit(s, t);
  }

  lemma ClientReceivesInv(s: State, t: State)
    requires Inv(s) && ClientReceives(s, t)
    ensures Inv(t)
  {
    Transit(s, t);
    assert s.toClient[0] in s.toClient && MayReachClient(s, s.toClient[0]);
  }

  lemma LoseInv(s: State, t: State)
    requires Inv(s) && Lose(s, t)
    ensures Inv(t)
  {
    Transit(s, t);
  }

  lemma ServerReceivesInv(s: State, t: State)
    requires Inv(s) && ServerReceives(s, t)
    ensures Inv(t)
  {
    assert s.toServer[0] in s.toServer && MayReachServer(s, s.toServer[0]);
    Transit(s, t);
  }

  /** The invariant holds in every state of every run. */
  lemma {:induction false} RunInv(run: seq<State>, i: nat)
    requires Run(run) && i < |run|
    ensures Inv(run[i])
    decreases i
  {
    if i == 0 {
      InitInv(run[0]);
    } else {
      RunInv(run, i - 1);
      NextInv(run[i - 1], run[(i - 1) + 1]);
    }
  }

  // ---------------------------------------------------------------- what it gives

  /** Whatever is lost and however the threads interleave: a client that believes it is connected is
      right about the server, and an acknowledged FIN has reached it. */
  lemma ConnectionSafety(run: seq<State>, i: nat)
    requires Run(run) && i < |run|
    ensures var s := run[i];
            && (s.client == CONNECTED ==> s.server == ServerConnected || s.server == CloseWait)
            && (forall g :: g in s.toClient && g.typ == SYNACK ==> s.server == ServerConnected || s.server == CloseWait)
            && (forall g :: g in s.toClient && g.typ == FINACK ==> s.server == CloseWait)
  {
    RunInv(run, i);
    forall g | g in run[i].toClient ensures MayReachClient(run[i], g) {
    }
  }

  /** srt_client_disconnect returning 0 means that the server is in CLOSEWAIT. */
  lemma DisconnectReturnsZero(run: seq<State>, i: nat)
    requires Run(run) && i + 1 < |run|
    requires InCall(run[i], Disconnect) && run[i + 1].control == Idle && run[i + 1].returned == 0
    ensures run[i + 1].server == CloseWait && run[i + 1].client == CLOSED
  {
    RunInv(run, i);
    assert Next(run[i], run[i + 1]);
  }

  /** srt_client_connect returning 0 means that the server accepted, and is connected still if this
      client never started to disconnect. */
  lemma ConnectReturnsZero(run: seq<State>, i: nat)
    requires Run(run) && i + 1 < |run|
    requires InCall(run[i], Connect) && run[i + 1].control == Idle && run[i + 1].returned == 0
    ensures run[i + 1].client == CONNECTED && run[i + 1].accepted
    ensures if run[i + 1].disconnectCalled then Up(run[i + 1]) else run[i + 1].server == ServerConnected
  {
    RunInv(run, i);
    RunInv(run, i + 1);
    assert Next(run[i], run[i + 1]);
  }

  /** The server acts only on the client's behalf: connected only after a connect call, closing only
      after a disconnect call. */
  lemma NoSpontaneousServer(run: seq<State>, i: nat)
    requires Run(run) && i < |run|
    ensures Up(run[i]) ==> run[i].connectCalled && run[i].accepted
    ensures run[i].server == CloseWait ==> run[i].disconnectCalled
  {
    RunInv(run, i);
  }

  /** The first SYNACK goes to whatever port client_portNum held, so unless that was the client's,
      connecting takes the server at least two replies. */
  lemma FirstReplyIsMisaddressed(run: seq<State>, i: nat)
    requires Run(run) && i < |run| && run[i].client == CONNECTED
    ensures run[i].ports.before == run[i].ports.client || run[i].replies >= 2
  {
    RunInv(run, i);
  }

  function Rank(s: ServerState): nat {
    match s
    case ServerClosed => 0
    case Listening => 1
    case ServerConnected => 2
    case CloseWait => 3
  }

  lemma StepForward(s: State, t: State)
    requires Inv(s) && Next(s, t)
    ensures Rank(s.server) <= Rank(t.server)
  {
  }

  /** The server never goes back. */
  lemma {:induction false} ServerMovesForward(run: seq<State>, i: nat, j: nat)
    requires Run(run) && i <= j < |run|
    ensures Rank(run[i].server) <= Rank(run[j].server)
    decreases j
  {
    hide Run, Inv, Next, Rank;
    if i == j {
    } else {
      ServerMovesForward(run, i, j - 1);
      RunInv(run, j - 1);
      RunNext(run, j - 1);
      StepForward(run[j - 1], run[j]);
    }
  }

  /** A bound on the steps the client's thread still takes inside try_send. */
  function StepsLeft(c: Control): int {
    match c
    case Idle => 0
    case AtFail(_) => 1
    case AtLoop(_, n) => 4 * n - 2
    case AtSend(_, n) => 4 * n + 1
    case AtWrite(_, n) => 4 * n
    case AtCheck(_, n) => 4 * n - 1
  }

  /** Segments the client can still send in this call. */
  function SendsLeft(c: Control): int {
    match c
    case Idle => 0
    case AtFail(_) => 0
    case AtLoop(_, n) => n - 1
    case AtSend(_, n) => n
    case AtWrite(_, n) => n - 1
    case AtCheck(_, n) => n - 1
  }

  /** Nobody but the client's thread moves its control, and each of its steps lowers the bounds. */
  lemma TrySendStep(run: seq<State>, i: nat)
    requires Run(run) && i + 1 < |run| && run[i].control != Idle
    ensures var c, d := run[i].control, run[i + 1].control;
            && StepsLeft(c) > 0 && SendsLeft(c) >= 0
            && (d != c ==> StepsLeft(d) < StepsLeft(c))
            && SendsLeft(d) <= SendsLeft(c) - (if Send(run[i], run[i + 1]) then 1 else 0)
  {
    hide Run;
    RunInv(run, i);
    RunNext(run, i);
    ControlMoves(run[i], run[i + 1]);
    TriesLeft(run[i]);
    hide Next, Inv, Send;
  }

  /** How a step may change the client's control. */
  lemma ControlMoves(s: State, t: State)
    requires Next(s, t) && s.control != Idle
    ensures t.control == s.control || Loop(s, t) || Send(s, t) || Write(s, t) || Check(s, t) || Fail(s, t)
    ensures Send(s, t) ==> s.control.AtSend? && t.control == AtWrite(s.control.call, s.control.tryNum)
  {
  }

  lemma TriesLeft(s: State)
    requires Inv(s)
    ensures !s.control.Idle? && !s.control.AtFail? ==> s.control.tryNum >= 1
  {
  }

  /** The steps of the client's thread between i and j. */
  ghost function Moves(run: seq<State>, i: nat, j: nat): nat
    requires i <= j < |run|
  {
    if i == j then 0 else Moves(run, i, j - 1) + if run[j - 1].control != run[j].control then 1 else 0
  }

  /** The segments it sends meanwhile. */
  ghost function Sends(run: seq<State>, i: nat, j: nat): nat
    requires i <= j < |run|
  {
    if i == j then 0 else Sends(run, i, j - 1) + if Send(run[j - 1], run[j]) then 1 else 0
  }

  lemma {:induction false} TrySendProgress(run: seq<State>, i: nat, j: nat)
    requires Run(run) && i <= j < |run|
    requires forall k :: i <= k < j ==> run[k].control != Idle
    ensures Moves(run, i, j) <= StepsLeft(run[i].control) - StepsLeft(run[j].control)
    ensures Sends(run, i, j) <= SendsLeft(run[i].control) - SendsLeft(run[j].control)
    decreases j
  {
    hide Run, StepsLeft, SendsLeft, Send;
    if i == j {
    } else {
      TrySendProgress(run, i, j - 1);
      TrySendStep(run, j - 1);
    }
  }

  lemma NothingLeftBelowZero(run: seq<State>, j: nat)
    requires Run(run) && j < |run|
    ensures StepsLeft(run[j].control) >= 0 && SendsLeft(run[j].control) >= 0
  {
    hide Run;
    RunInv(run, j);
  }

  /** Inside a call the number of sends left falls with each send and changes in no other way. */
  lemma SendsLeftExact(s: State, t: State)
    requires Inv(s) && Next(s, t) && s.control != Idle && t.control != Idle
    ensures SendsLeft(t.control) == SendsLeft(s.control) - (if Send(s, t) then 1 else 0)
  {
    ControlMoves(s, t);
    TriesLeft(s);
    hide Next, Inv;
  }

  lemma {:induction false} SendsExact(run: seq<State>, i: nat, j: nat)
    requires Run(run) && i <= j < |run|
    requires forall k :: i <= k <= j ==> run[k].control != Idle
    ensures Sends(run, i, j) == SendsLeft(run[i].control) - SendsLeft(run[j].control)
    decreases j
  {
    hide Run, SendsLeft, Send;
    if i == j {
    } else {
      SendsExact(run, i, j - 1);
      RunInv(run, j - 1);
      RunNext(run, j - 1);
      SendsLeftExact(run[j - 1], run[j]);
    }
  }

  /** A call that gives up has sent exactly four segments. */
  lemma GivesUpAfterFour(run: seq<State>, i: nat, j: nat, call: Call)
    requires Run(run) && i <= j < |run|
    requires run[i].control == AtLoop(call, if call.Connect? then SYN_MAX_RETRY else FIN_MAX_RETRY)
    requires forall k :: i <= k <= j ==> run[k].control != Idle
    ensures run[j].control.AtFail? ==> Sends(run, i, j) == 4
  {
    hide Run;
    SendsExact(run, i, j);
  }

  /** Only a call that gives up returns -1, and it leaves the client closed. */
  lemma MinusOneMeansGivenUp(run: seq<State>, j: nat)
    requires Run(run) && j + 1 < |run| && run[j].control != Idle && run[j + 1].control == Idle
    ensures run[j + 1].returned == if run[j].control.AtFail? then -1 else 0
    ensures run[j].control.AtFail? ==> run[j + 1].client == CLOSED
  {
    RunNext(run, j);
  }

  /** try_send returns: as long as the call lasts, the client's thread has taken at most 18 steps in it,
      at most four of which were sends. */
  lemma TrySendReturns(run: seq<State>, i: nat, j: nat, call: Call)
    requires Run(run) && i <= j < |run|
    requires run[i].control == AtLoop(call, if call.Connect? then SYN_MAX_RETRY else FIN_MAX_RETRY)
    requires forall k :: i <= k < j ==> run[k].control != Idle
    ensures Moves(run, i, j) <= 18 && Sends(run, i, j) <= 4
  {
    hide Run;
    TrySendProgress(run, i, j);
    NothingLeftBelowZero(run, j);
  }

  // ---------------------------------------------------------------- a run that connects and disconnects

  lemma Extend(run: seq<State>, t: State)
    requires Run(run) && Next(run[|run| - 1], t)
    ensures Run(run + [t])
  {
    hide Next, Init;
  }

  /** From any state of a run, the client's thread goes once round its loop up to the check. */
  lemma OneTry(run: seq<State>) returns (run': seq<State>)
    requires Run(run) && run[|run| - 1].control.AtLoop? && run[|run| - 1].control.tryNum >= 2
    ensures Run(run') && |run'| == |run| + 3 && run <= run'
    ensures var s, c := run[|run| - 1], run[|run| - 1].control;
            run'[|run'| - 1] == s.(control := AtCheck(c.call, c.tryNum - 1), client := MidState(c.call),
                                   toServer := s.toServer + [Request(c.call, s.ports)])
  {
    var s, c := run[|run| - 1], run[|run| - 1].control;
    var s1 := s.(control := AtSend(c.call, c.tryNum - 1));
    var s2 := s1.(control := AtWrite(c.call, c.tryNum - 1), toServer := s.toServer + [Request(c.call, s.ports)]);
    var s3 := s2.(control := AtCheck(c.call, c.tryNum - 1), client := MidState(c.call));
    assert Loop(s, s1) && Send(s1, s2) && Write(s2, s3);
    hide Run;
    Extend(run, s1);
    Extend(run + [s1], s2);
    Extend(run + [s1] + [s2], s3);
    run' := run + [s1] + [s2] + [s3];
  }

  /** The one segment on its way is answered by the server ... */
  predicate Answerable(s: State) {
    && |s.toServer| == 1 && s.toServer[0].destPort == s.ports.server && s.toClient == []
    && ServerHandler(s.server, s.toServer[0].typ).1 != []
  }

  function Answered(s: State): State
    requires Answerable(s)
  {
    var (server', reply) := ServerHandler(s.server, s.toServer[0].typ);
    s.(server := server',
       clientPortNum := if s.server == Listening then s.toServer[0].srcPort else s.clientPortNum,
       toServer := [],
       replies := s.replies + 1,
       toClient := [Segment(reply[0], s.ports.server, s.clientPortNum)])
  }

  /** ... the answer is handled by the client ... */
  function Delivered(s: State): State
    requires |s.toClient| == 1
  {
    var seg := s.toClient[0];
    s.(toClient := [],
       client := if seg.destPort == s.ports.client then ClientHandler(s.client, seg.typ) else s.client)
  }

  /** ... and the call looks at its state. */
  function Checked(s: State): State
    requires s.control.AtCheck?
  {
    if s.client == DestState(s.control.call) then s.(control := Idle, returned := 0)
    else s.(control := AtLoop(s.control.call, s.control.tryNum))
  }

  lemma AnsweredIsNext(s: State)
    requires Answerable(s)
    ensures Next(s, Answered(s)) && |Answered(s).toClient| == 1 && Answered(s).control == s.control
  {
    var answer := Segment(ServerHandler(s.server, s.toServer[0].typ).1[0], s.ports.server, s.clientPortNum);
    assert s.toServer[1..] == [] && s.toClient + [answer] == [answer];
    assert ServerReceives(s, Answered(s));
  }

  lemma DeliveredIsNext(s: State)
    requires |s.toClient| == 1
    ensures Next(s, Delivered(s)) && Delivered(s).control == s.control
  {
    assert s.toClient[1..] == [];
    assert ClientReceives(s, Delivered(s));
  }

  lemma CheckedIsNext(s: State)
    requires s.control.AtCheck?
    ensures Next(s, Checked(s))
  {
    assert Check(s, Checked(s));
  }

  lemma OneExchange(run: seq<State>) returns (run': seq<State>)
    requires Run(run) && run[|run| - 1].control.AtCheck? && Answerable(run[|run| - 1])
    ensures Run(run') && |run'| == |run| + 3 && run <= run'
    ensures var s1 := Answered(run[|run| - 1]);
            && |s1.toClient| == 1 && s1.control.AtCheck? && Delivered(s1).control.AtCheck?
            && run'[|run| + 1] == Delivered(s1) && run'[|run| + 2] == Checked(Delivered(s1))
  {
    var s := run[|run| - 1];
    hide Run, Next, Answered, Delivered, Checked, Answerable;
    AnsweredIsNext(s);
    DeliveredIsNext(Answered(s));
    CheckedIsNext(Delivered(Answered(s)));
    Extend(run, Answered(s));
    Extend(run + [Answered(s)], Delivered(Answered(s)));
    Extend(run + [Answered(s)] + [Delivered(Answered(s))], Checked(Delivered(Answered(s))));
    run' := run + [Answered(s)] + [Delivered(Answered(s))] + [Checked(Delivered(Answered(s)))];
  }

  /** Connecting to a server that has another port in mind: the first SYNACK goes astray, the second
      SYN is answered, and connect returns 0. */
  lemma ConnectingRun(p: Ports) returns (run: seq<State>)
    requires p.before != p.client
    ensures Run(run) && |run| == 15
    ensures run[13].control == AtCheck(Connect, 3)
    ensures run[14] == State(p, CONNECTED, Idle, 0, ServerConnected, p.client, [], [], true, true, false, 2)
  {
    var s0 := State(p, CLOSED, Idle, 1, ServerClosed, p.before, [], [], false, false, false, 0);
    var s1 := s0.(control := AtLoop(Connect, SYN_MAX_RETRY), connectCalled := true);
    run := [s0];
    assert Run(run) && CallConnect(s0, s1);
    Extend(run, s1);
    run := OneTry(run + [s1]);
    var s4 := run[4];
    var s5 := s4.(accepted := true, server := Listening);
    assert Accept(s4, s5);
    Extend(run, s5);
    run := OneExchange(run + [s5]);
    run := OneTry(run);
    run := OneExchange(run);
  }

  /** Then disconnecting: the FIN is answered, and disconnect returns 0. */
  lemma DisconnectingRun(p: Ports) returns (run: seq<State>)
    requires p.before != p.client
    ensures Run(run) && |run| == 22
    ensures InCall(run[20], Disconnect) && run[21].control == Idle && run[21].returned == 0
  {
    run := ConnectingRun(p);
    var s := run[14];
    var t := s.(control := AtLoop(Disconnect, FIN_MAX_RETRY), disconnectCalled := true);
    assert CallDisconnect(s, t);
    Extend(run, t);
    run := OneTry(run + [t]);
    run := OneExchange(run);
  }
}
