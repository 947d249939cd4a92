/**
 * The TLS handshake state machines of tls/_handshake.py: the shared
 * post-handshake machine `TLSCommon`, and `TLSClient` and `TLSServer`, each
 * composed from it. Every machine is a value of `StateMachine.Machine`; a
 * `Connection` is one running instance, whose `Fire` takes one input.
 */
module Handshake {
  import opened Wrappers
  import opened StateMachine
  import Wire

  /** The arguments the inputs carry (plaintext, Finished data, a session id, a message) are opaque bytes here. */
  type Payload = seq<Wire.Byte>

  /**
   * All states of the three machines. `Idle` is the initial state of both the
   * client and the server (each declares its own `idle`).
   */
  datatype State =
    | AppData | Shutdown | HostInitiatedClosing     // TLSCommon
    | Idle | Wait1 | Wait2                          // TLSClient (with Idle)
    | CheckSessionCache | WaitResume | Wait         // TLSServer (with Idle)

  datatype Input =
    | WriteData | ReceivedCloseNotify | CloseNotifyCalled                       // TLSCommon
    | ReceiveFinished | Begin | ReceiveServerHelloDone | Buffer                 // TLSClient
    | ClientHelloReceived | IdFoundSomehow | IdNotFoundSomehow | ReceivedFinished // TLSServer

  /** `SendFinished` names both the client's and the server's `send_finished`. */
  datatype Output =
    | WriteAppData | SendCloseNotify | CloseTransportNow | CloseTransportLater | IndicateEof // TLSCommon
    | SendClientHello | SendFinished                                                       // TLSClient
    | SendServerHello | SendServerHelloDone | SendNoRenegotiation                          // TLSServer

  type HandshakeMachine = Machine<State, Input, Output>

  const NoParams := OutputSignature({}, {})

  /** The arguments of an input that takes none. */
  const NoArgs: map<ParamName, Payload> := map[]

  // ---------------------------------------------------------------------------
  // The three tables

  /** `TLSCommon`: no initial state (it is only a base to compose with); `shutdown` is terminal. */
  function Common(): HandshakeMachine
  {
    Machine(
      {AppData, Shutdown, HostInitiatedClosing},
      map[WriteData := {"plaintext"}, ReceivedCloseNotify := {}, CloseNotifyCalled := {}],
      map[WriteAppData := OutputSignature({"plaintext"}, {}),
          SendCloseNotify := NoParams, CloseTransportNow := NoParams,
          CloseTransportLater := NoParams, IndicateEof := NoParams],
      {},
      [ Transition(AppData, WriteData, AppData, [WriteAppData]),
        Transition(AppData, ReceivedCloseNotify, Shutdown, [SendCloseNotify, CloseTransportLater, IndicateEof]),
        Transition(AppData, CloseNotifyCalled, HostInitiatedClosing, [SendCloseNotify]),
        Transition(HostInitiatedClosing, ReceivedCloseNotify, Shutdown, [CloseTransportNow, IndicateEof]) ],
      {Shutdown})
  }

  /** What `TLSClient` declares on top of `TLSCommon`. */
  function ClientDeclarations(): HandshakeMachine
  {
    Machine(
      {Idle, Wait1, Wait2},
      map[ReceiveFinished := {"data"}, Begin := {},
          ReceiveServerHelloDone := {"server_hello_done"}, Buffer := {}],
      map[SendClientHello := NoParams, SendFinished := NoParams],
      {Idle},
      [ Transition(Idle, Begin, Wait1, [SendClientHello]),
        Transition(Wait1, ReceiveServerHelloDone, Wait2, [SendFinished]),
        Transition(Wait2, ReceiveFinished, AppData, []) ],
      {Shutdown})
  }

  /** What `TLSServer` declares on top of `TLSCommon`. */
  function ServerDeclarations(): HandshakeMachine
  {
    Machine(
      {Idle, CheckSessionCache, WaitResume, Wait},
      map[ClientHelloReceived := {}, IdFoundSomehow := {"session_id"},
          IdNotFoundSomehow := {}, ReceivedFinished := {}],
      map[SendServerHello := OutputSignature({}, {"session_id"}),
          SendServerHelloDone := NoParams, SendFinished := NoParams, SendNoRenegotiation := NoParams],
      {Idle},
      [ Transition(Idle, ClientHelloReceived, CheckSessionCache, []),
        Transition(CheckSessionCache, IdFoundSomehow, WaitResume, [SendServerHello, SendFinished]),
        Transition(CheckSessionCache, IdNotFoundSomehow, Wait, [SendServerHello, SendServerHelloDone]),
        Transition(Wait, ReceivedFinished, AppData, [SendFinished]),
        Transition(WaitResume, ReceivedFinished, AppData, []),
        Transition(AppData, ClientHelloReceived, AppData, [SendNoRenegotiation]) ],
      {Shutdown})
  }

  function ClientMachine(): HandshakeMachine { Merge(Common(), ClientDeclarations()) }

  function ServerMachine(): HandshakeMachine { Merge(Common(), ServerDeclarations()) }

  // ---------------------------------------------------------------------------
  // The tables pass the construction-time checks


  /** The conditions of `WellFormed`, one at a time, for `TLSCommon`. */
  lemma CommonRowsDeclared()
    ensures forall t :: t in Common().transitions ==> Declared(Common(), t)
  {}

  lemma CommonRowsFitSignatures()
    ensures forall t :: t in Common().transitions ==> SignatureFits(Common(), t)
  {}

  lemma CommonNoTerminalExit()
    ensures forall t :: t in Common().transitions ==> t.from !in Common().terminal
  {}

  lemma CommonDeterministic()
    ensures Deterministic(Common().transitions)
  {
    var ts := Common().transitions;
    forall j, k | 0 <= j < k < |ts| ensures !SameKey(ts[j], ts[k]) {}
  }

  lemma CommonWellFormed()
    ensures WellFormed(Common())
  {
    CommonRowsDeclared();
    CommonRowsFitSignatures();
    CommonNoTerminalExit();
    CommonDeterministic();
  }

  /** The same for the composed `TLSClient`. */
  lemma ClientRowsDeclared()
    ensures forall t :: t in ClientMachine().transitions ==> Declared(ClientMachine(), t)
  {}

  lemma ClientRowsFitSignatures()
    ensures forall t :: t in ClientMachine().transitions ==> SignatureFits(ClientMachine(), t)
  {
    forall t, o | t in ClientMachine().transitions && o in t.outputs
      ensures Fits(ClientMachine(), t.input, o)
    {
      ClientRowFits(t, o);
    }
  }

  /** Each output of a row takes only parameters the row's input has. */
  lemma ClientRowFits(t: Transition<State, Input, Output>, o: Output)
    requires t in ClientMachine().transitions && o in t.outputs
    ensures Fits(ClientMachine(), t.input, o)
  {
    CommonRowsAreReference(Client);
    ClientRowsAreReference();
    assert t in Common().transitions || t in ClientDeclarations().transitions;
    ReferenceFits(Client, t.from, t.input, o);
    ClientInputsAreDeclared(t.input);
    ClientOutputsAreDeclared(o);
  }

  lemma ClientNoTerminalExit()
    ensures forall t :: t in ClientMachine().transitions ==> t.from !in ClientMachine().terminal
  {}

  lemma ClientDeterministic()
    ensures Deterministic(ClientMachine().transitions)
  {
    var ts := ClientMachine().transitions;
    forall j, k | 0 <= j < k < |ts| ensures !SameKey(ts[j], ts[k]) {}
  }

  lemma ClientWellFormed()
    ensures WellFormed(ClientMachine())
  {
    ClientRowsDeclared();
    ClientRowsFitSignatures();
    ClientNoTerminalExit();
    ClientDeterministic();
  }

  /** The same for the composed `TLSServer`. */
  lemma ServerRowsDeclared()
    ensures forall t :: t in ServerMachine().transitions ==> Declared(ServerMachine(), t)
  {}

  lemma ServerRowsFitSignatures()
    ensures forall t :: t in ServerMachine().transitions ==> SignatureFits(ServerMachine(), t)
  {
    forall t, o | t in ServerMachine().transitions && o in t.outputs
      ensures Fits(ServerMachine(), t.input, o)
    {
      ServerRowFits(t, o);
    }
  }

  /** Each output of a row takes only parameters the row's input has. */
  lemma ServerRowFits(t: Transition<State, Input, Output>, o: Output)
    requires t in ServerMachine().transitions && o in t.outputs
    ensures Fits(ServerMachine(), t.input, o)
  {
    CommonRowsAreReference(Server);
    ServerRowsAreReference();
    assert t in Common().transitions || t in ServerDeclarations().transitions;
    ReferenceFits(Server, t.from, t.input, o);
    ServerInputsAreDeclared(t.input);
    ServerOutputsAreDeclared(o);
  }

  lemma ServerNoTerminalExit()
    ensures forall t :: t in ServerMachine().transitions ==> t.from !in ServerMachine().terminal
  {}

  lemma ServerDeterministic()
    ensures Deterministic(ServerMachine().transitions)
  {
    var ts := ServerMachine().transitions;
    forall j, k | 0 <= j < k < |ts| ensures !SameKey(ts[j], ts[k]) {}
  }

  lemma ServerWellFormed()
    ensures WellFormed(ServerMachine())
  {
    ServerRowsDeclared();
    ServerRowsFitSignatures();
    ServerNoTerminalExit();
    ServerDeterministic();
  }

  /** Defining `TLSCommon` raises no definition error. */
  lemma CommonIsValid()
    ensures Finalize(Common()) == Success(Common())
  {
    CommonWellFormed();
  }

  /** Composing `TLSClient` from `TLSCommon` succeeds, and yields the merged table. */
  lemma ClientIsValid()
    ensures Submachine(Common(), ClientDeclarations()) == Success(ClientMachine())
  {
    ClientDeclaresNewNames();
    ClientWellFormed();
  }

  /** Every state, input and output `TLSClient` declares is new to `TLSCommon`. */
  lemma ClientDeclaresNewNames()
    ensures ClientDeclarations().states !! Common().states
    ensures ClientDeclarations().inputs.Keys !! Common().inputs.Keys
    ensures ClientDeclarations().outputs.Keys !! Common().outputs.Keys
  {}

  /** Composing `TLSServer` from `TLSCommon` succeeds, and yields the merged table. */
  lemma ServerIsValid()
    ensures Submachine(Common(), ServerDeclarations()) == Success(ServerMachine())
  {
    ServerDeclaresNewNames();
    ServerWellFormed();
  }

  /** Every state, input and output `TLSServer` declares is new to `TLSCommon`. */
  lemma ServerDeclaresNewNames()
    ensures ServerDeclarations().states !! Common().states
    ensures ServerDeclarations().inputs.Keys !! Common().inputs.Keys
    ensures ServerDeclarations().outputs.Keys !! Common().outputs.Keys
  {}

  // ---------------------------------------------------------------------------
  // Why `session_id` must be optional in `send_server_hello`

  /** `TLSServer` with `send_server_hello(self, session_id)`, i.e. without the default. */
  function StrictServerDeclarations(): HandshakeMachine
  {
    ServerDeclarations().(outputs := ServerDeclarations().outputs[SendServerHello := OutputSignature({"session_id"}, {})])
  }

  /** `TLSServer` with the strict `send_server_hello`. */
  function StrictServer(): HandshakeMachine
  {
    ServerMachine().(outputs := ServerMachine().outputs[SendServerHello := OutputSignature({"session_id"}, {})])
  }

  /** The strict table differs from `TLSServer` only in the signature of `send_server_hello`. */
  lemma StrictServerIsServerButOne()
    ensures Merge(Common(), StrictServerDeclarations()) == StrictServer()
  {
  }

  /** The strict table passes every check before the signature check. */
  lemma StrictServerPassesEarlierChecks()
    ensures StrictServer().initial <= StrictServer().states && StrictServer().terminal <= StrictServer().states
    ensures forall t :: t in StrictServer().transitions ==> Declared(StrictServer(), t)
    ensures Deterministic(StrictServer().transitions)
  {
    var n := ServerMachine();
    var m := StrictServer();
    ServerWellFormed();
    assert m.outputs.Keys == n.outputs.Keys;
    assert forall t :: t in m.transitions ==> Declared(n, t);
  }

  /** In the strict table the one output that misses a parameter is `send_server_hello` after `id_not_found_somehow`. */
  lemma StrictServerOnlyMismatch(t: Transition<State, Input, Output>, o: Output)
    requires t in StrictServer().transitions && o in t.outputs
    ensures !Fits(StrictServer(), t.input, o) <==>
      (t == Transition(CheckSessionCache, IdNotFoundSomehow, Wait, [SendServerHello, SendServerHelloDone]) && o == SendServerHello)
  {
    ServerRowFits(t, o);
    StrictFits(t.input, o);
    if o == SendServerHello {
      ServerHelloRows(t);
    }
  }

  /** The strict table fits an output to an input as `TLSServer` does, except that `send_server_hello` needs `session_id`. */
  lemma StrictFits(i: Input, o: Output)
    requires i in ServerMachine().inputs
    ensures Fits(StrictServer(), i, o) <==>
      if o == SendServerHello then i == IdFoundSomehow else Fits(ServerMachine(), i, o)
  {
    ServerInputsAreDeclared(i);
    ServerOutputsAreDeclared(o);
  }

  /** The server's rows that send a ServerHello are the two leaving `check_session_cache`. */
  lemma ServerHelloRows(t: Transition<State, Input, Output>)
    requires t in ServerMachine().transitions && SendServerHello in t.outputs
    ensures t.input == IdFoundSomehow
      || t == Transition(CheckSessionCache, IdNotFoundSomehow, Wait, [SendServerHello, SendServerHelloDone])
  {
  }

  /**
   * Declaring `send_server_hello` without its default is refused at
   * composition: `id_not_found_somehow` carries no `session_id` to give it.
   */
  lemma StrictServerHelloRejected()
    ensures Submachine(Common(), StrictServerDeclarations())
      == Failure(SignatureMismatch(Transition(CheckSessionCache, IdNotFoundSomehow, Wait, [SendServerHello, SendServerHelloDone]), SendServerHello))
  {
    assert StrictServerDeclarations().states == ServerDeclarations().states;
    assert StrictServerDeclarations().inputs == ServerDeclarations().inputs;
    assert StrictServerDeclarations().outputs.Keys == ServerDeclarations().outputs.Keys;
    ServerDeclaresNewNames();
    StrictServerIsServerButOne();
    StrictServerFinalize();
  }

  lemma StrictServerFinalize()
    ensures Finalize(StrictServer())
      == Failure(SignatureMismatch(Transition(CheckSessionCache, IdNotFoundSomehow, Wait, [SendServerHello, SendServerHelloDone]), SendServerHello))
  {
    var m := StrictServer();
    var row := Transition(CheckSessionCache, IdNotFoundSomehow, Wait, [SendServerHello, SendServerHelloDone]);
    StrictServerPassesEarlierChecks();
    assert row == m.transitions[6];
    StrictServerOnlyMismatch(row, SendServerHello);
    forall u, p | u in m.transitions && p in u.outputs && !Fits(m, u.input, p)
      ensures u == row && p == SendServerHello
    {
      StrictServerOnlyMismatch(u, p);
    }
    FinalizeReportsTheMismatch(m, row, SendServerHello);
  }

  // ---------------------------------------------------------------------------
  // The tables, read as step functions

  datatype Role = Client | Server

  /** The machine of `TLSClient` or of `TLSServer`. */
  function MachineOf(role: Role): HandshakeMachine
  {
    if role == Client then ClientMachine() else ServerMachine()
  }

  /** Both machines start in `idle`, end in `shutdown`, and pass every construction-time check. */
  lemma MachineOfIsWellFormed(role: Role)
    ensures WellFormed(MachineOf(role))
    ensures MachineOf(role).initial == {Idle} && MachineOf(role).terminal == {Shutdown}
  {
    if role == Client {
      ClientWellFormed();
    } else {
      ServerWellFormed();
    }
  }

  /**
   * The tables written out state by state: what input `i` does in state `s`
   * for `role`, if anything.
   */
  function Reference(role: Role, s: State, i: Input): Option<(State, seq<Output>)>
  {
    match s
    case AppData =>
      if i == WriteData then Some((AppData, [WriteAppData]))
      else if i == ReceivedCloseNotify then Some((Shutdown, [SendCloseNotify, CloseTransportLater, IndicateEof]))
      else if i == CloseNotifyCalled then Some((HostInitiatedClosing, [SendCloseNotify]))
      else if i == ClientHelloReceived && role == Server then Some((AppData, [SendNoRenegotiation]))
      else None
    case HostInitiatedClosing =>
      if i == ReceivedCloseNotify then Some((Shutdown, [CloseTransportNow, IndicateEof])) else None
    case Shutdown => None
    case Idle =>
      if role == Client && i == Begin then Some((Wait1, [SendClientHello]))
      else if role == Server && i == ClientHelloReceived then Some((CheckSessionCache, []))
      else None
    case Wait1 =>
      if role == Client && i == ReceiveServerHelloDone then Some((Wait2, [SendFinished])) else None
    case Wait2 =>
      if role == Client && i == ReceiveFinished then Some((AppData, [])) else None
    case CheckSessionCache =>
      if role == Server && i == IdFoundSomehow then Some((WaitResume, [SendServerHello, SendFinished]))
      else if role == Server && i == IdNotFoundSomehow then Some((Wait, [SendServerHello, SendServerHelloDone]))
      else None
    case Wait =>
      if role == Server && i == ReceivedFinished then Some((AppData, [SendFinished])) else None
    case WaitResume =>
      if role == Server && i == ReceivedFinished then Some((AppData, [])) else None
  }

  lemma CommonRowsAreReference(role: Role)
    ensures forall t :: t in Common().transitions ==> Reference(role, t.from, t.input) == Some((t.to, t.outputs))
  {
  }

  lemma ClientRowsAreReference()
    ensures forall t :: t in ClientDeclarations().transitions ==> Reference(Client, t.from, t.input) == Some((t.to, t.outputs))
  {
  }

  lemma ServerRowsAreReference()
    ensures forall t :: t in ServerDeclarations().transitions ==> Reference(Server, t.from, t.input) == Some((t.to, t.outputs))
  {
    assert Reference(Server, Idle, ClientHelloReceived) == Some((CheckSessionCache, []));
    assert Reference(Server, CheckSessionCache, IdFoundSomehow) == Some((WaitResume, [SendServerHello, SendFinished]));
    assert Reference(Server, CheckSessionCache, IdNotFoundSomehow) == Some((Wait, [SendServerHello, SendServerHelloDone]));
    assert Reference(Server, Wait, ReceivedFinished) == Some((AppData, [SendFinished]));
    assert Reference(Server, WaitResume, ReceivedFinished) == Some((AppData, []));
    assert Reference(Server, AppData, ClientHelloReceived) == Some((AppData, [SendNoRenegotiation]));
  }

  /** Every output an entry of `Reference` lists belongs to the role and requires only parameters its input has. */
  lemma ReferenceFits(role: Role, s: State, i: Input, o: Output)
    requires Reference(role, s, i).Some? && o in Reference(role, s, i).value.1
    ensures Accepts(role, i) && Emits(role, o) && OutputParams(role, o).required <= InputParams(i)
  {
    match s
    case AppData =>
    case HostInitiatedClosing =>
    case Idle =>
    case Wait1 =>
    case Wait2 =>
    case CheckSessionCache =>
    case Wait =>
    case WaitResume =>
  }

  /** Every entry of `Reference` is a row of the role's table. */
  lemma ReferenceIsARow(role: Role, s: State, i: Input)
    ensures Reference(role, s, i).Some? ==>
      Transition(s, i, Reference(role, s, i).value.0, Reference(role, s, i).value.1) in MachineOf(role).transitions
  {
  }

  /**
   * Firing input `i` in state `s` does what `Reference` says: each listed row
   * is taken, with its outputs in their listed order, and every pair the
   * tables do not list (a `received_finished` in `idle`, any `buffer`,
   * anything in `shutdown`) has no successor.
   */
  lemma StepIsReference(role: Role, s: State, i: Input)
    ensures Step(MachineOf(role).transitions, s, i) == Reference(role, s, i)
  {
    var m := MachineOf(role);
    var ts := m.transitions;
    if role == Client {
      assert ts == Common().transitions + ClientDeclarations().transitions;
      ClientRowsAreReference();
    } else {
      assert ts == Common().transitions + ServerDeclarations().transitions;
      ServerRowsAreReference();
    }
    MachineOfIsWellFormed(role);
    CommonRowsAreReference(role);
    ReferenceIsARow(role, s, i);
    StepAgreesWith(ts, (s', i') => Reference(role, s', i'), s, i);
  }

  // ---------------------------------------------------------------------------
  // Ordering of the outputs: what a connection has emitted, state by state

  /** The first output of a handshake. */
  function Hello(role: Role): Output
  {
    if role == Client then SendClientHello else SendServerHello
  }

  /** The outputs of a complete handshake: the client's, the server's new session, or the server's resumed session. */
  predicate Opening(role: Role, n: seq<Output>)
  {
    if role == Client then n == [SendClientHello, SendFinished]
    else n == [SendServerHello, SendServerHelloDone, SendFinished] || n == [SendServerHello, SendFinished]
  }

  /** The outputs `app_data` emits while staying in `app_data`. */
  predicate DataOutput(role: Role, o: Output)
  {
    o == WriteAppData || (role == Server && o == SendNoRenegotiation)
  }

  /** A complete handshake followed only by outputs of `app_data`. */
  predicate Established(role: Role, n: seq<Output>)
    decreases |n|
  {
    Opening(role, n) || (|n| > 0 && DataOutput(role, n[|n| - 1]) && Established(role, n[..|n| - 1]))
  }

  /** The outputs a connection of `role` has emitted when it is in state `s`. */
  predicate History(role: Role, s: State, n: seq<Output>)
  {
    match s
    case Idle => n == []
    case Wait1 => role == Client && n == [SendClientHello]
    case Wait2 => role == Client && n == [SendClientHello, SendFinished]
    case CheckSessionCache => role == Server && n == []
    case Wait => role == Server && n == [SendServerHello, SendServerHelloDone]
    case WaitResume => role == Server && n == [SendServerHello, SendFinished]
    case AppData => Established(role, n)
    case HostInitiatedClosing => |n| > 0 && n[|n| - 1] == SendCloseNotify && Established(role, n[..|n| - 1])
    case Shutdown =>
      && |n| >= 3
      && Established(role, n[..|n| - 3])
      && n[|n| - 3] == SendCloseNotify
      && (n[|n| - 2] == CloseTransportLater || n[|n| - 2] == CloseTransportNow)
      && n[|n| - 1] == IndicateEof
  }

  /** Every entry of the tables keeps the history of its role. */
  lemma HistoryReference(role: Role, s: State, n: seq<Output>, i: Input)
    requires History(role, s, n)
    requires Reference(role, s, i).Some?
    ensures History(role, Reference(role, s, i).value.0, n + Reference(role, s, i).value.1)
  {
    var (to, outs) := Reference(role, s, i).value;
    var n' := n + outs;
    match s
    case AppData =>
      if to == AppData || to == HostInitiatedClosing {
        assert n'[..|n'| - 1] == n;
      } else {
        assert n'[..|n'| - 3] == n;
      }
    case HostInitiatedClosing =>
      assert n'[..|n'| - 3] == n[..|n| - 1];
    case _ =>
  }

  /** Every transition keeps the history of its role. */
  lemma HistoryStep(role: Role, s: State, n: seq<Output>, i: Input)
    requires History(role, s, n)
    requires Step(MachineOf(role).transitions, s, i).Some?
    ensures History(role, Step(MachineOf(role).transitions, s, i).value.0, n + Step(MachineOf(role).transitions, s, i).value.1)
  {
    StepIsReference(role, s, i);
    HistoryReference(role, s, n, i);
  }

  /** Firing a sequence of inputs keeps the history of its role. */
  lemma HistoryRun(role: Role, s: State, n: seq<Output>, calls: seq<Call<Input, Payload>>)
    requires History(role, s, n)
    requires Run(MachineOf(role), s, calls).Some?
    ensures History(role, Run(MachineOf(role), s, calls).value.0, n + Names(Run(MachineOf(role), s, calls).value.1))
  {
    var m := MachineOf(role);
    var inv := (s': State, n': seq<Output>) => History(role, s', n');
    forall s': State, n': seq<Output>, i: Input | inv(s', n') && Step(m.transitions, s', i).Some?
      ensures inv(Step(m.transitions, s', i).value.0, n' + Step(m.transitions, s', i).value.1)
    {
      HistoryStep(role, s', n', i);
    }
    RunPreserves(m, inv, s, n, calls);
  }

  /** What every established trace shows: the hello came first, and no data was written before `send_finished`. */
  lemma {:induction false} EstablishedOrder(role: Role, n: seq<Output>)
    requires Established(role, n)
    ensures |n| >= 2 && n[0] == Hello(role) && SendFinished in n
    ensures forall k :: 0 <= k < |n| && n[k] == WriteAppData ==> SendFinished in n[..k]
    ensures role == Client ==> SendNoRenegotiation !in n
    decreases |n|
  {
    if !Opening(role, n) {
      var p := n[..|n| - 1];
      EstablishedOrder(role, p);
      assert n == p + [n[|n| - 1]];
      forall k | 0 <= k < |n| && n[k] == WriteAppData ensures SendFinished in n[..k] {
        if k < |p| {
          assert n[..k] == p[..k];
        } else {
          assert SendFinished in p && p == n[..k];
        }
      }
    }
  }

  /**
   * The ordering every reachable history guarantees: the hello is the first
   * output, no application data is written before `send_finished`, closing
   * starts only after the handshake finished, `send_close_notify` precedes
   * closing the transport, `indicate_eof` is the last output in `shutdown`,
   * and only the server ever refuses renegotiation.
   */
  lemma HistoryOrder(role: Role, s: State, n: seq<Output>)
    requires History(role, s, n)
    ensures n != [] ==> n[0] == Hello(role)
    ensures forall k :: 0 <= k < |n| && n[k] == WriteAppData ==> SendFinished in n[..k]
    ensures s == AppData || s == HostInitiatedClosing || s == Shutdown ==> SendFinished in n
    ensures s == Shutdown ==> SendCloseNotify in n && n[|n| - 1] == IndicateEof
    ensures role == Client ==> SendNoRenegotiation !in n
  {
    match s
    case AppData =>
      assert n == n + [];
      ExtendedOrder(role, n, n, []);
    case HostInitiatedClosing =>
      assert n == n[..|n| - 1] + [SendCloseNotify];
      ExtendedOrder(role, n[..|n| - 1], n, [SendCloseNotify]);
    case Shutdown =>
      assert n == n[..|n| - 3] + n[|n| - 3..];
      ExtendedOrder(role, n[..|n| - 3], n, n[|n| - 3..]);
    case _ =>
  }

  /** An established history followed by outputs that write no data and refuse nothing keeps the order of the handshake. */
  lemma ExtendedOrder(role: Role, p: seq<Output>, n: seq<Output>, suffix: seq<Output>)
    requires Established(role, p) && n == p + suffix
    requires WriteAppData !in suffix && SendNoRenegotiation !in suffix
    ensures n[0] == Hello(role) && SendFinished in n
    ensures forall k :: 0 <= k < |n| && n[k] == WriteAppData ==> SendFinished in n[..k]
    ensures role == Client ==> SendNoRenegotiation !in n
  {
    EstablishedOrder(role, p);
    assert n[..|p|] == p;
    PrefixKeepsOrder(p, n);
  }

  /** Data written only after `send_finished` in a prefix stays so in the whole sequence. */
  lemma PrefixKeepsOrder(p: seq<Output>, n: seq<Output>)
    requires |p| <= |n| && p == n[..|p|] && SendFinished in p
    requires forall k :: 0 <= k < |p| && p[k] == WriteAppData ==> SendFinished in p[..k]
    ensures forall k :: 0 <= k < |n| && n[k] == WriteAppData ==> SendFinished in n[..k]
  {
    forall k | 0 <= k < |n| && n[k] == WriteAppData ensures SendFinished in n[..k] {
      if k < |p| {
        assert n[..k] == p[..k];
      } else {
        assert p == n[..k][..|p|];
      }
    }
  }

  /** Every sequence of inputs fired from `idle` leaves a history of the role. */
  lemma RunFromIdle(role: Role, calls: seq<Call<Input, Payload>>)
    requires Run(MachineOf(role), Idle, calls).Some?
    ensures History(role, Run(MachineOf(role), Idle, calls).value.0, Names(Run(MachineOf(role), Idle, calls).value.1))
  {
    HistoryRun(role, Idle, [], calls);
    assert [] + Names(Run(MachineOf(role), Idle, calls).value.1) == Names(Run(MachineOf(role), Idle, calls).value.1);
  }

  // ---------------------------------------------------------------------------
  // A running connection

  /** The parameters of each input, as its method's signature names them. */
  function InputParams(i: Input): set<ParamName>
  {
    match i
    case WriteData => {"plaintext"}
    case ReceiveFinished => {"data"}
    case ReceiveServerHelloDone => {"server_hello_done"}
    case IdFoundSomehow => {"session_id"}
    case _ => {}
  }

  /** Whether a connection of `role` has input `i`: the shared ones, and its own. */
  predicate Accepts(role: Role, i: Input)
  {
    match i
    case WriteData | ReceivedCloseNotify | CloseNotifyCalled => true
    case ReceiveFinished | Begin | ReceiveServerHelloDone | Buffer => role == Client
    case _ => role == Server
  }

  /** `Accepts` and `InputParams` are the inputs the machines declare, with their parameters. */
  lemma InputsAreDeclared(role: Role, i: Input)
    ensures i in MachineOf(role).inputs <==> Accepts(role, i)
    ensures Accepts(role, i) ==> MachineOf(role).inputs[i] == InputParams(i)
  {
    if role == Client {
      ClientInputsAreDeclared(i);
    } else {
      ServerInputsAreDeclared(i);
    }
  }

  /** The client's inputs: the shared ones and `begin`, `receive_server_hello_done`, `receive_finished`, `buffer`. */
  lemma ClientInputsAreDeclared(i: Input)
    ensures i in ClientMachine().inputs <==> Accepts(Client, i)
    ensures Accepts(Client, i) ==> ClientMachine().inputs[i] == InputParams(i)
  {
    ClientOwnInputs(i);
    CommonInputs(i);
    assert ClientMachine().inputs == Common().inputs + ClientDeclarations().inputs;
  }

  /** The server's inputs: the shared ones and its own four. */
  lemma ServerInputsAreDeclared(i: Input)
    ensures i in ServerMachine().inputs <==> Accepts(Server, i)
    ensures Accepts(Server, i) ==> ServerMachine().inputs[i] == InputParams(i)
  {
    ServerOwnInputs(i);
    CommonInputs(i);
    assert ServerMachine().inputs == Common().inputs + ServerDeclarations().inputs;
  }

  /** The parameters of each output: `plaintext` for `write_app_data`, an optional `session_id` for the server's hello, none for the rest. */
  function OutputParams(role: Role, o: Output): OutputSignature
  {
    match o
    case WriteAppData => OutputSignature({"plaintext"}, {})
    case SendServerHello => if role == Server then OutputSignature({}, {"session_id"}) else NoParams
    case _ => NoParams
  }

  /** Whether a connection of `role` has output `o`: the shared ones, `send_finished`, and its own. */
  predicate Emits(role: Role, o: Output)
  {
    match o
    case WriteAppData | SendCloseNotify | CloseTransportNow | CloseTransportLater | IndicateEof | SendFinished => true
    case SendClientHello => role == Client
    case _ => role == Server
  }

  /** The client's outputs: the shared ones, `send_client_hello` and `send_finished`. */
  lemma ClientOutputsAreDeclared(o: Output)
    ensures o in ClientMachine().outputs <==> Emits(Client, o)
    ensures Emits(Client, o) ==> ClientMachine().outputs[o] == OutputParams(Client, o)
  {
    ClientOwnOutputs(o);
    CommonOutputs(o);
    assert ClientMachine().outputs == Common().outputs + ClientDeclarations().outputs;
  }

  /** The server's outputs: the shared ones and its own four. */
  lemma ServerOutputsAreDeclared(o: Output)
    ensures o in ServerMachine().outputs <==> Emits(Server, o)
    ensures Emits(Server, o) ==> ServerMachine().outputs[o] == OutputParams(Server, o)
  {
    ServerOwnOutputs(o);
    CommonOutputs(o);
    assert ServerMachine().outputs == Common().outputs + ServerDeclarations().outputs;
  }

  /** The inputs `TLSCommon` declares, with their parameters. */
  lemma CommonInputs(i: Input)
    ensures i in Common().inputs <==> i.WriteData? || i.ReceivedCloseNotify? || i.CloseNotifyCalled?
    ensures i in Common().inputs ==> Common().inputs[i] == InputParams(i)
  {
  }

  /** The inputs `TLSClient` adds, with their parameters. */
  lemma ClientOwnInputs(i: Input)
    ensures i in ClientDeclarations().inputs <==> i.ReceiveFinished? || i.Begin? || i.ReceiveServerHelloDone? || i.Buffer?
    ensures i in ClientDeclarations().inputs ==> ClientDeclarations().inputs[i] == InputParams(i)
  {
  }

  /** The inputs `TLSServer` adds, with their parameters. */
  lemma ServerOwnInputs(i: Input)
    ensures i in ServerDeclarations().inputs <==> i.ClientHelloReceived? || i.IdFoundSomehow? || i.IdNotFoundSomehow? || i.ReceivedFinished?
    ensures i in ServerDeclarations().inputs ==> ServerDeclarations().inputs[i] == InputParams(i)
  {
  }

  /** The outputs `TLSCommon` declares, with their signatures. */
  lemma CommonOutputs(o: Output)
    ensures o in Common().outputs <==>
      o.WriteAppData? || o.SendCloseNotify? || o.CloseTransportNow? || o.CloseTransportLater? || o.IndicateEof?
    ensures o in Common().outputs ==> Common().outputs[o] == OutputParams(Client, o) == OutputParams(Server, o)
  {
  }

  /** The outputs `TLSClient` adds, with their signatures. */
  lemma ClientOwnOutputs(o: Output)
    ensures o in ClientDeclarations().outputs <==> o.SendClientHello? || o.SendFinished?
    ensures o in ClientDeclarations().outputs ==> ClientDeclarations().outputs[o] == OutputParams(Client, o)
  {
  }

  /** The outputs `TLSServer` adds, with their signatures. */
  lemma ServerOwnOutputs(o: Output)
    ensures o in ServerDeclarations().outputs <==>
      o.SendServerHello? || o.SendServerHelloDone? || o.SendFinished? || o.SendNoRenegotiation?
    ensures o in ServerDeclarations().outputs ==> ServerDeclarations().outputs[o] == OutputParams(Server, o)
  {
  }

  /**
   * One `TLSClient` or `TLSServer` instance: its current state, the Finished
   * data the client stores, and the outputs it has invoked so far, each with
   * the arguments passed along to it.
   */
  class Connection {
    const role: Role
    const machine: HandshakeMachine
    var state: State
    var finishedDataFromServer: Option<Payload>
    var trace: seq<Emission<Output, Payload>>

    /** The outputs invoked so far are exactly those the state allows. */
    ghost predicate Valid()
      reads this
    {
      machine == MachineOf(role) && History(role, state, Names(trace))
    }

    constructor (role: Role)
      ensures this.role == role && machine == MachineOf(role) && state == Idle
      ensures finishedDataFromServer == None && trace == []
      ensures Valid()
    {
      this.role := role;
      machine := MachineOf(role);
      state := Idle;
      finishedDataFromServer := None;
      trace := [];
    }

    /** Invokes `outs` in order, each with the arguments named among its parameters. */
    method Invoke(outs: seq<Output>, args: map<ParamName, Payload>)
      modifies this
      ensures trace == old(trace) + Emit(machine, outs, args)
      ensures state == old(state) && finishedDataFromServer == old(finishedDataFromServer)
    {
      var k := 0;
      while k < |outs|
        invariant 0 <= k <= |outs|
        invariant trace == old(trace) + Emit(machine, outs[..k], args)
        invariant state == old(state) && finishedDataFromServer == old(finishedDataFromServer)
      {
        trace := trace + [Emission(outs[k], Forward(SignatureOf(machine, outs[k]), args))];
        assert outs[..k + 1] == outs[..k] + [outs[k]];
        k := k + 1;
      }
      assert outs[..k] == outs;
    }

    /**
     * Calls input `input` with keyword arguments `args`. With no row for the
     * current state nothing runs and the input is reported unhandled;
     * otherwise the input's own body runs, the state moves to the row's
     * target, and the row's outputs are invoked in order, each with the
     * arguments named among its parameters.
     */
    method Fire(input: Input, args: map<ParamName, Payload>) returns (outcome: FireOutcome<State, Input>)
      requires Valid()
      requires Accepts(role, input) && args.Keys == InputParams(input)
      modifies this
      ensures Valid()
      ensures Reference(role, old(state), input).None? ==>
        && outcome == Unhandled(old(state), input)
        && state == old(state) && trace == old(trace)
        && finishedDataFromServer == old(finishedDataFromServer)
      ensures Reference(role, old(state), input).Some? ==>
        && outcome == Fired
        && state == Reference(role, old(state), input).value.0
        && trace == old(trace) + Invocations(role, Reference(role, old(state), input).value.1, args)
        && finishedDataFromServer == (if input == ReceiveFinished then Some(args["data"]) else old(finishedDataFromServer))
    {
      StepIsReference(role, state, input);
      var m := machine;
      var step := Step(m.transitions, state, input);
      if step.None? {
        return Unhandled(state, input);
      }
      if input == ReceiveFinished {
        finishedDataFromServer := Some(args["data"]);
      }
      var start := trace;
      HistoryFire(role, state, start, input, args);
      state := step.value.0;
      var outs := step.value.1;
      Invoke(outs, args);
      EmitIsInvocations(role, outs, args);
      outcome := Fired;
    }
  }

  /** Firing keeps the history: the trace grows by the row's outputs, in order. */
  lemma HistoryFire(role: Role, s: State, start: seq<Emission<Output, Payload>>, i: Input, args: map<ParamName, Payload>)
    requires History(role, s, Names(start))
    requires Step(MachineOf(role).transitions, s, i).Some?
    ensures History(role, Step(MachineOf(role).transitions, s, i).value.0,
      Names(start + Emit(MachineOf(role), Step(MachineOf(role).transitions, s, i).value.1, args)))
  {
    var m := MachineOf(role);
    var outs := Step(m.transitions, s, i).value.1;
    HistoryStep(role, s, Names(start), i);
    NamesAppend(start, Emit(m, outs, args));
    EmitKeepsOrder(m, outs, args);
  }

  // ---------------------------------------------------------------------------
  // Scenarios

  /** The outputs `outs` invoked in order, each with the arguments of `args` named among its parameters. */
  function Invocations(role: Role, outs: seq<Output>, args: map<ParamName, Payload>): (r: seq<Emission<Output, Payload>>)
    ensures Names(r) == outs
  {
    seq(|outs|, k requires 0 <= k < |outs| => Emission(outs[k], Forward(OutputParams(role, outs[k]), args)))
  }

  /** `OutputParams` is the signature each machine declares for the output. */
  lemma SignatureOfOutput(role: Role, o: Output)
    ensures SignatureOf(MachineOf(role), o) == OutputParams(role, o)
  {
    if role == Client {
      ClientOutputsAreDeclared(o);
    } else {
      ServerOutputsAreDeclared(o);
    }
  }

  /** Invoking a row's outputs through the machine's declarations passes exactly the arguments `Invocations` says. */
  lemma EmitIsInvocations(role: Role, outs: seq<Output>, args: map<ParamName, Payload>)
    ensures Emit(MachineOf(role), outs, args) == Invocations(role, outs, args)
  {
    forall k | 0 <= k < |outs| ensures Emit(MachineOf(role), outs, args)[k] == Invocations(role, outs, args)[k] {
      SignatureOfOutput(role, outs[k]);
    }
  }

  /** Outputs given none of their parameters receive no arguments, whatever else the input carried. */
  lemma PlainInvocations(role: Role, outs: seq<Output>, args: map<ParamName, Payload>)
    requires "plaintext" !in args && "session_id" !in args
    ensures |Invocations(role, outs, args)| == |outs|
    ensures forall k :: 0 <= k < |outs| ==> Invocations(role, outs, args)[k] == Emission(outs[k], NoArgs)
  {
    forall k | 0 <= k < |outs| ensures Invocations(role, outs, args)[k] == Emission(outs[k], NoArgs) {
      assert Forward(OutputParams(role, outs[k]), args) == NoArgs;
    }
  }

  /** Client, `idle --begin--> wait_1`: sends the ClientHello. */
  method ClientBegin(c: Connection)
    requires c.Valid() && c.role == Client && c.state == Idle
    modifies c
    ensures c.Valid() && c.state == Wait1
    ensures c.trace == old(c.trace) + [Emission(SendClientHello, NoArgs)]
    ensures c.finishedDataFromServer == old(c.finishedDataFromServer)
  {
    PlainInvocations(Client, [SendClientHello], NoArgs);
    var outcome := c.Fire(Begin, NoArgs);
  }

  /** Client, `wait_1 --receive_server_hello_done--> wait_2`: sends Finished; the message itself is passed to no output. */
  method ClientServerHelloDone(c: Connection, serverHelloDone: Payload)
    requires c.Valid() && c.role == Client && c.state == Wait1
    modifies c
    ensures c.Valid() && c.state == Wait2
    ensures c.trace == old(c.trace) + [Emission(SendFinished, NoArgs)]
    ensures c.finishedDataFromServer == old(c.finishedDataFromServer)
  {
    PlainInvocations(Client, [SendFinished], map["server_hello_done" := serverHelloDone]);
    var outcome := c.Fire(ReceiveServerHelloDone, map["server_hello_done" := serverHelloDone]);
    assert Forward(NoParams, map["server_hello_done" := serverHelloDone]) == NoArgs;
  }

  /** Client, `wait_2 --receive_finished(data)--> app_data`: no output, and the input's body stores `data`. */
  method ClientReceiveFinished(c: Connection, data: Payload)
    requires c.Valid() && c.role == Client && c.state == Wait2
    modifies c
    ensures c.Valid() && c.state == AppData
    ensures c.trace == old(c.trace)
    ensures c.finishedDataFromServer == Some(data)
  {
    var outcome := c.Fire(ReceiveFinished, map["data" := data]);
  }

  /** The client's full handshake, from a new connection. */
  method ClientHandshake(serverHelloDone: Payload, finished: Payload) returns (c: Connection)
    ensures c.Valid() && c.role == Client && c.state == AppData
    ensures c.trace == [Emission(SendClientHello, NoArgs), Emission(SendFinished, NoArgs)]
    ensures c.finishedDataFromServer == Some(finished)
  {
    c := new Connection(Client);
    ClientBegin(c);
    ClientServerHelloDone(c, serverHelloDone);
    ClientReceiveFinished(c, finished);
  }

  /** `buffer` is declared by the client but has no row: in every state it is unhandled and nothing happens. */
  method ClientBuffer(c: Connection) returns (outcome: FireOutcome<State, Input>)
    requires c.Valid() && c.role == Client
    modifies c
    ensures outcome == Unhandled(old(c.state), Buffer)
    ensures c.state == old(c.state) && c.trace == old(c.trace) && c.finishedDataFromServer == old(c.finishedDataFromServer)
  {
    outcome := c.Fire(Buffer, NoArgs);
  }

  /** Server, `idle --client_hello_received--> check_session_cache`: no output yet. */
  method ServerClientHello(c: Connection)
    requires c.Valid() && c.role == Server && c.state == Idle
    modifies c
    ensures c.Valid() && c.state == CheckSessionCache
    ensures c.trace == old(c.trace) && c.finishedDataFromServer == old(c.finishedDataFromServer)
  {
    var outcome := c.Fire(ClientHelloReceived, NoArgs);
  }

  /** Server, `check_session_cache --id_not_found_somehow--> wait`: ServerHello (with no session id) and ServerHelloDone. */
  method ServerSessionNotFound(c: Connection)
    requires c.Valid() && c.role == Server && c.state == CheckSessionCache
    modifies c
    ensures c.Valid() && c.state == Wait
    ensures c.trace == old(c.trace) + [Emission(SendServerHello, NoArgs), Emission(SendServerHelloDone, NoArgs)]
    ensures c.finishedDataFromServer == old(c.finishedDataFromServer)
  {
    PlainInvocations(Server, [SendServerHello, SendServerHelloDone], NoArgs);
    var outcome := c.Fire(IdNotFoundSomehow, NoArgs);
  }

  /**
   * Server, `check_session_cache --id_found_somehow(session_id)--> wait_resume`:
   * ServerHello receives the session id, then Finished, which takes nothing.
   */
  method ServerSessionFound(c: Connection, sessionId: Payload)
    requires c.Valid() && c.role == Server && c.state == CheckSessionCache
    modifies c
    ensures c.Valid() && c.state == WaitResume
    ensures c.trace == old(c.trace) + [Emission(SendServerHello, map["session_id" := sessionId]), Emission(SendFinished, NoArgs)]
    ensures c.finishedDataFromServer == old(c.finishedDataFromServer)
  {
    ResumedInvocations(sessionId);
    var outcome := c.Fire(IdFoundSomehow, map["session_id" := sessionId]);
  }

  /** On a resumed session the ServerHello receives the session id and Finished receives nothing. */
  lemma ResumedInvocations(sessionId: Payload)
    ensures Invocations(Server, [SendServerHello, SendFinished], map["session_id" := sessionId])
      == [Emission(SendServerHello, map["session_id" := sessionId]), Emission(SendFinished, NoArgs)]
  {
    var args := map["session_id" := sessionId];
    assert Forward(OutputParams(Server, SendServerHello), args) == args;
    assert Forward(NoParams, args) == NoArgs;
  }

  /** Server, `wait --received_finished--> app_data`: the server's Finished goes last on a new session. */
  method ServerFinishedNewSession(c: Connection)
    requires c.Valid() && c.role == Server && c.state == Wait
    modifies c
    ensures c.Valid() && c.state == AppData
    ensures c.trace == old(c.trace) + [Emission(SendFinished, NoArgs)]
    ensures c.finishedDataFromServer == old(c.finishedDataFromServer)
  {
    PlainInvocations(Server, [SendFinished], NoArgs);
    var outcome := c.Fire(ReceivedFinished, NoArgs);
  }

  /** Server, `wait_resume --received_finished--> app_data`: nothing more to send on a resumed session. */
  method ServerFinishedResumed(c: Connection)
    requires c.Valid() && c.role == Server && c.state == WaitResume
    modifies c
    ensures c.Valid() && c.state == AppData
    ensures c.trace == old(c.trace) && c.finishedDataFromServer == old(c.finishedDataFromServer)
  {
    var outcome := c.Fire(ReceivedFinished, NoArgs);
  }

  /** The server's handshake for a new session, from a new connection. */
  method ServerNewSession() returns (c: Connection)
    ensures c.Valid() && c.role == Server && c.state == AppData
    ensures c.trace == [Emission(SendServerHello, NoArgs), Emission(SendServerHelloDone, NoArgs), Emission(SendFinished, NoArgs)]
  {
    c := new Connection(Server);
    ServerClientHello(c);
    ServerSessionNotFound(c);
    ServerFinishedNewSession(c);
  }

  /** The server's handshake resuming session `sessionId`, from a new connection. */
  method ServerResumedSession(sessionId: Payload) returns (c: Connection)
    ensures c.Valid() && c.role == Server && c.state == AppData
    ensures c.trace == [Emission(SendServerHello, map["session_id" := sessionId]), Emission(SendFinished, NoArgs)]
  {
    c := new Connection(Server);
    ServerClientHello(c);
    ServerSessionFound(c, sessionId);
    ServerFinishedResumed(c);
  }

  /** A ClientHello in `app_data` is answered by `send_no_renegotiation` alone, and the server stays in `app_data`. */
  method ServerRefusesRenegotiation(c: Connection)
    requires c.Valid() && c.role == Server && c.state == AppData
    modifies c
    ensures c.Valid() && c.state == AppData
    ensures c.trace == old(c.trace) + [Emission(SendNoRenegotiation, NoArgs)]
    ensures c.finishedDataFromServer == old(c.finishedDataFromServer)
  {
    PlainInvocations(Server, [SendNoRenegotiation], NoArgs);
    var outcome := c.Fire(ClientHelloReceived, NoArgs);
  }

  /** `app_data --write_data(plaintext)--> app_data`: `write_app_data` receives the plaintext, on either side. */
  method WriteApplicationData(c: Connection, plaintext: Payload)
    requires c.Valid() && c.state == AppData
    modifies c
    ensures c.Valid() && c.state == AppData
    ensures c.trace == old(c.trace) + [Emission(WriteAppData, map["plaintext" := plaintext])]
    ensures c.finishedDataFromServer == old(c.finishedDataFromServer)
  {
    WriteInvocations(c.role, plaintext);
    var outcome := c.Fire(WriteData, map["plaintext" := plaintext]);
  }

  /** The plaintext given to `write_data` is passed along to `write_app_data` unchanged. */
  lemma WriteInvocations(role: Role, plaintext: Payload)
    ensures Invocations(role, [WriteAppData], map["plaintext" := plaintext])
      == [Emission(WriteAppData, map["plaintext" := plaintext])]
  {
    var args := map["plaintext" := plaintext];
    assert Forward(OutputParams(role, WriteAppData), args) == args;
  }

  /** A Finished from the client before any ClientHello is unhandled, and the server stays in `idle`. */
  method ServerFinishedTooEarly(c: Connection) returns (outcome: FireOutcome<State, Input>)
    requires c.Valid() && c.role == Server && c.state == Idle
    modifies c
    ensures outcome == Unhandled(Idle, ReceivedFinished)
    ensures c.state == Idle && c.trace == old(c.trace) && c.finishedDataFromServer == old(c.finishedDataFromServer)
  {
    outcome := c.Fire(ReceivedFinished, NoArgs);
  }

  /** The peer's close_notify in `app_data`: answer it, close the transport after pending writes, signal EOF. */
  method CloseByPeer(c: Connection)
    requires c.Valid() && c.state == AppData
    modifies c
    ensures c.Valid() && c.state == Shutdown
    ensures c.trace == old(c.trace) + [Emission(SendCloseNotify, NoArgs), Emission(CloseTransportLater, NoArgs), Emission(IndicateEof, NoArgs)]
    ensures c.finishedDataFromServer == old(c.finishedDataFromServer)
  {
    PlainInvocations(c.role, [SendCloseNotify, CloseTransportLater, IndicateEof], NoArgs);
    var outcome := c.Fire(ReceivedCloseNotify, NoArgs);
  }

  /** Closing from this side: send close_notify and wait for the peer's in `host_initiated_closing`. */
  method CloseByHost(c: Connection)
    requires c.Valid() && c.state == AppData
    modifies c
    ensures c.Valid() && c.state == HostInitiatedClosing
    ensures c.trace == old(c.trace) + [Emission(SendCloseNotify, NoArgs)]
    ensures c.finishedDataFromServer == old(c.finishedDataFromServer)
  {
    PlainInvocations(c.role, [SendCloseNotify], NoArgs);
    var outcome := c.Fire(CloseNotifyCalled, NoArgs);
  }

  /** The peer's answering close_notify: close the transport at once and signal EOF. */
  method ClosingCompleted(c: Connection)
    requires c.Valid() && c.state == HostInitiatedClosing
    modifies c
    ensures c.Valid() && c.state == Shutdown
    ensures c.trace == old(c.trace) + [Emission(CloseTransportNow, NoArgs), Emission(IndicateEof, NoArgs)]
    ensures c.finishedDataFromServer == old(c.finishedDataFromServer)
  {
    PlainInvocations(c.role, [CloseTransportNow, IndicateEof], NoArgs);
    var outcome := c.Fire(ReceivedCloseNotify, NoArgs);
  }
}
