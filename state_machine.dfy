/**
 * The declarative state-machine engine the handshake machines are written in
 * (`HypotheticalStateMachine` in tls/_handshake.py): states, inputs and outputs
 * with named parameters, a transition table, the checks made when the table is
 * declared, composition of a machine from a base machine, and the firing rule.
 *
 * The source only describes this engine in a docstring; here a machine is a
 * value and every rule is a function over it.
 */
module StateMachine {
  import opened Wrappers

  /** A parameter name of an input or output method. */
  type ParamName = string

  /**
   * The parameters of an output method. `optional` ones have a default value in
   * the method's signature (`send_server_hello(self, session_id=None)`).
   */
  datatype OutputSignature = OutputSignature(required: set<ParamName>, optional: set<ParamName>)
  {
    function Params(): set<ParamName> { required + optional }
  }

  /** One row of a transition table: `(in-state, input, out-state, outputs)`. */
  datatype Transition<S, I, O> = Transition(from: S, input: I, to: S, outputs: seq<O>)

  /**
   * A machine definition: its declared states, inputs (with their parameter
   * names) and outputs (with their signatures), and the three arguments of
   * `machine.transitions(initial, transitions, terminal)`.
   */
  datatype Machine<S, I, O> = Machine(
    states: set<S>,
    inputs: map<I, set<ParamName>>,
    outputs: map<O, OutputSignature>,
    initial: set<S>,
    transitions: seq<Transition<S, I, O>>,
    terminal: set<S>)

  /** Why a machine definition is refused when it is declared. */
  datatype DefinitionError<S, I, O> =
    | DuplicateDeclaration
    | UndeclaredState
    | UndeclaredReference(transition: Transition<S, I, O>)
    | Nondeterministic(transition: Transition<S, I, O>)
    | SignatureMismatch(transition: Transition<S, I, O>, output: O)
    | TerminalStateViolation(transition: Transition<S, I, O>)

  /** Firing an input either takes a transition or reports that none applies. */
  datatype FireOutcome<S, I> = Fired | Unhandled(state: S, input: I)

  /** An output invocation: the output and the arguments passed along to it. */
  datatype Emission<O, V> = Emission(output: O, args: map<ParamName, V>)

  /** An input invocation with its keyword arguments. */
  datatype Call<I, V> = Call(input: I, args: map<ParamName, V>)

  // ---------------------------------------------------------------------------
  // The construction-time rules, stated declaratively

  /** Every state, input and output that `t` names is declared in `m`. */
  predicate Declared<S(==), I(==), O(==)>(m: Machine<S, I, O>, t: Transition<S, I, O>)
  {
    && t.from in m.states
    && t.to in m.states
    && t.input in m.inputs
    && forall o :: o in t.outputs ==> o in m.outputs
  }

  /** Output `o` may be triggered by input `i`: its required parameters are among `i`'s. */
  predicate Fits<S(==), I(==), O(==)>(m: Machine<S, I, O>, i: I, o: O)
  {
    o in m.outputs && i in m.inputs && m.outputs[o].required <= m.inputs[i]
  }

  /** The parameter rule holds for every output that `t` triggers. */
  predicate SignatureFits<S(==), I(==), O(==)>(m: Machine<S, I, O>, t: Transition<S, I, O>)
  {
    forall o :: o in t.outputs ==> Fits(m, t.input, o)
  }

  /** `t` and `u` are registered for the same (state, input) pair. */
  predicate SameKey<S(==), I(==), O(==)>(t: Transition<S, I, O>, u: Transition<S, I, O>)
  {
    t.from == u.from && t.input == u.input
  }

  /** At most one row per (state, input) pair. */
  ghost predicate Deterministic<S, I, O>(ts: seq<Transition<S, I, O>>)
  {
    forall j, k :: 0 <= j < k < |ts| ==> !SameKey(ts[j], ts[k])
  }

  /** Everything `machine.transitions(...)` is meant to verify. */
  ghost predicate WellFormed<S, I, O>(m: Machine<S, I, O>)
  {
    && m.initial <= m.states
    && m.terminal <= m.states
    && (forall t :: t in m.transitions ==> Declared(m, t))
    && Deterministic(m.transitions)
    && (forall t :: t in m.transitions ==> SignatureFits(m, t))
    && (forall t :: t in m.transitions ==> t.from !in m.terminal)
  }

  // ---------------------------------------------------------------------------
  // The construction-time checks, as a validator that reports the offending row

  function FindUndeclared<S(==), I(==), O(==)>(m: Machine<S, I, O>, ts: seq<Transition<S, I, O>>): (r: Option<Transition<S, I, O>>)
    ensures r.None? <==> forall t :: t in ts ==> Declared(m, t)
    ensures r.Some? ==> r.value in ts && !Declared(m, r.value)
  {
    if ts == [] then None
    else if !Declared(m, ts[0]) then Some(ts[0])
    else
      assert forall t :: t in ts ==> t == ts[0] || t in ts[1..];
      FindUndeclared(m, ts[1..])
  }

  function FirstUnfit<S(==), I(==), O(==)>(m: Machine<S, I, O>, i: I, outs: seq<O>): (r: Option<O>)
    ensures r.None? <==> forall o :: o in outs ==> Fits(m, i, o)
    ensures r.Some? ==> r.value in outs && !Fits(m, i, r.value)
  {
    if outs == [] then None
    else if !Fits(m, i, outs[0]) then Some(outs[0])
    else
      assert forall o :: o in outs ==> o == outs[0] || o in outs[1..];
      FirstUnfit(m, i, outs[1..])
  }

  function FindSignatureMismatch<S(==), I(==), O(==)>(m: Machine<S, I, O>, ts: seq<Transition<S, I, O>>): (r: Option<(Transition<S, I, O>, O)>)
    ensures r.None? <==> forall t :: t in ts ==> SignatureFits(m, t)
    ensures r.Some? ==> r.value.0 in ts && r.value.1 in r.value.0.outputs && !Fits(m, r.value.0.input, r.value.1)
  {
    if ts == [] then None
    else match FirstUnfit(m, ts[0].input, ts[0].outputs)
      case Some(o) =>
        assert ts[0] in ts && !SignatureFits(m, ts[0]);
        Some((ts[0], o))
      case None =>
        assert forall t :: t in ts ==> t == ts[0] || t in ts[1..];
        FindSignatureMismatch(m, ts[1..])
  }

  function FindConflict<S(==), I(==), O(==)>(ts: seq<Transition<S, I, O>>): (r: Option<Transition<S, I, O>>)
    ensures r.None? <==> Deterministic(ts)
    ensures r.Some? ==> exists j, k :: 0 <= j < k < |ts| && ts[j] == r.value && SameKey(ts[j], ts[k])
  {
    if ts == [] then None
    else if exists k :: 1 <= k < |ts| && SameKey(ts[0], ts[k]) then Some(ts[0])
    else
      var r := FindConflict(ts[1..]);
      assert r.None? ==> Deterministic(ts) by {
        if r.None? {
          forall j, k | 0 <= j < k < |ts| ensures !SameKey(ts[j], ts[k]) {
            if j > 0 { assert ts[j] == ts[1..][j - 1] && ts[k] == ts[1..][k - 1]; }
          }
        }
      }
      assert r.Some? ==> exists j, k :: 0 <= j < k < |ts| && ts[j] == r.value && SameKey(ts[j], ts[k]) by {
        if r.Some? {
          var j, k :| 0 <= j < k < |ts[1..]| && ts[1..][j] == r.value && SameKey(ts[1..][j], ts[1..][k]);
          assert ts[j + 1] == r.value && SameKey(ts[j + 1], ts[k + 1]);
        }
      }
      assert r.Some? ==> !Deterministic(ts);
      r
  }

  function FindTerminalExit<S(==), I(==), O(==)>(m: Machine<S, I, O>, ts: seq<Transition<S, I, O>>): (r: Option<Transition<S, I, O>>)
    ensures r.None? <==> forall t :: t in ts ==> t.from !in m.terminal
    ensures r.Some? ==> r.value in ts && r.value.from in m.terminal
  {
    if ts == [] then None
    else if ts[0].from in m.terminal then Some(ts[0])
    else
      assert forall t :: t in ts ==> t == ts[0] || t in ts[1..];
      FindTerminalExit(m, ts[1..])
  }

  /**
   * `machine.transitions(...)`: accepts a definition exactly when it is well
   * formed. An undeclared initial or terminal state is reported as
   * `UndeclaredState`, which names no row; every other refusal names the
   * offending row.
   */
  function Finalize<S(==), I(==), O(==)>(m: Machine<S, I, O>): (r: Result<Machine<S, I, O>, DefinitionError<S, I, O>>)
    ensures r.Success? <==> WellFormed(m)
    ensures r.Success? ==> r.value == m
    ensures r == Failure(UndeclaredState) <==> !(m.initial <= m.states && m.terminal <= m.states)
    ensures r.Failure? && r.error.UndeclaredReference? ==>
      r.error.transition in m.transitions && !Declared(m, r.error.transition)
    ensures r.Failure? && r.error.Nondeterministic? ==>
      exists j, k :: 0 <= j < k < |m.transitions| && m.transitions[j] == r.error.transition && SameKey(m.transitions[j], m.transitions[k])
    ensures r.Failure? && r.error.SignatureMismatch? ==>
      && r.error.transition in m.transitions
      && r.error.output in r.error.transition.outputs
      && !Fits(m, r.error.transition.input, r.error.output)
    ensures r.Failure? && r.error.TerminalStateViolation? ==>
      r.error.transition in m.transitions && r.error.transition.from in m.terminal
  {
    if !(m.initial <= m.states && m.terminal <= m.states) then Failure(UndeclaredState)
    else match FindUndeclared(m, m.transitions)
      case Some(t) => Failure(UndeclaredReference(t))
      case None =>
        match FindConflict(m.transitions)
        case Some(t) => Failure(Nondeterministic(t))
        case None =>
          match FindSignatureMismatch(m, m.transitions)
          case Some(p) => Failure(SignatureMismatch(p.0, p.1))
          case None =>
            match FindTerminalExit(m, m.transitions)
            case Some(t) => Failure(TerminalStateViolation(t))
            case None => Success(m)
  }

  /**
   * When a definition passes the declaration and determinism checks and has
   * exactly one output missing a parameter, that row and output are what the
   * validator reports.
   */
  lemma FinalizeReportsTheMismatch<S, I, O>(m: Machine<S, I, O>, t: Transition<S, I, O>, o: O)
    requires m.initial <= m.states && m.terminal <= m.states
    requires forall u :: u in m.transitions ==> Declared(m, u)
    requires Deterministic(m.transitions)
    requires t in m.transitions && o in t.outputs && !Fits(m, t.input, o)
    requires forall u, p :: u in m.transitions && p in u.outputs && !Fits(m, u.input, p) ==> u == t && p == o
    ensures Finalize(m) == Failure(SignatureMismatch(t, o))
  {
    assert !SignatureFits(m, t);
  }

  // ---------------------------------------------------------------------------
  // Composition (`TLSCommon.submachine()`)

  /** The base's declarations and rows, followed by the extension's. */
  function Merge<S(==), I(==), O(==)>(base: Machine<S, I, O>, ext: Machine<S, I, O>): Machine<S, I, O>
  {
    Machine(
      base.states + ext.states,
      base.inputs + ext.inputs,
      base.outputs + ext.outputs,
      base.initial + ext.initial,
      base.transitions + ext.transitions,
      base.terminal + ext.terminal)
  }

  /**
   * A machine composed from `base` and the declarations of `ext`: the new
   * names must not collide with the base's, and the result must be well formed.
   * `base` itself is a value and stays as it was.
   */
  function Submachine<S(==), I(==), O(==)>(base: Machine<S, I, O>, ext: Machine<S, I, O>): (r: Result<Machine<S, I, O>, DefinitionError<S, I, O>>)
    ensures r.Success? ==> WellFormed(r.value)
    ensures r.Success? ==>
      && base.states <= r.value.states
      && base.inputs.Keys <= r.value.inputs.Keys
      && base.outputs.Keys <= r.value.outputs.Keys
      && r.value.transitions == base.transitions + ext.transitions
    ensures (r == Failure(DuplicateDeclaration)) <==>
      !(ext.states !! base.states && ext.inputs.Keys !! base.inputs.Keys && ext.outputs.Keys !! base.outputs.Keys)
    ensures r.Success? <==>
      && (ext.states !! base.states && ext.inputs.Keys !! base.inputs.Keys && ext.outputs.Keys !! base.outputs.Keys)
      && WellFormed(Merge(base, ext))
    ensures r.Success? ==> r.value == Merge(base, ext)
  {
    if !(ext.states !! base.states && ext.inputs.Keys !! base.inputs.Keys && ext.outputs.Keys !! base.outputs.Keys)
    then Failure(DuplicateDeclaration)
    else Finalize(Merge(base, ext))
  }

  // ---------------------------------------------------------------------------
  // Firing

  /** The row registered for `(s, i)`, if any. */
  function Step<S(==), I(==), O(==)>(ts: seq<Transition<S, I, O>>, s: S, i: I): (r: Option<(S, seq<O>)>)
    ensures r.None? <==> forall t :: t in ts ==> !(t.from == s && t.input == i)
    ensures r.Some? ==> exists t :: t in ts && t.from == s && t.input == i && r.value == (t.to, t.outputs)
  {
    if ts == [] then None
    else if ts[0].from == s && ts[0].input == i then Some((ts[0].to, ts[0].outputs))
    else
      assert forall t :: t in ts ==> t == ts[0] || t in ts[1..];
      Step(ts[1..], s, i)
  }

  /** The signature of a declared output; undeclared outputs take nothing. */
  function SignatureOf<S(==), I(==), O(==)>(m: Machine<S, I, O>, o: O): OutputSignature
  {
    if o in m.outputs then m.outputs[o] else OutputSignature({}, {})
  }

  /** The input arguments whose names are parameters of the output. */
  function Forward<V>(sig: OutputSignature, args: map<ParamName, V>): map<ParamName, V>
  {
    map p | p in args && p in sig.Params() :: args[p]
  }

  /** The outputs of a row, invoked in their listed order, each with its arguments. */
  function Emit<S(==), I(==), O(==), V>(m: Machine<S, I, O>, outs: seq<O>, args: map<ParamName, V>): (r: seq<Emission<O, V>>)
    ensures |r| == |outs| && Names(r) == outs
    ensures forall k :: 0 <= k < |outs| ==> r[k].args.Keys == args.Keys * SignatureOf(m, outs[k]).Params()
    ensures forall k, p :: 0 <= k < |outs| && p in r[k].args ==> p in args && r[k].args[p] == args[p]
  {
    seq(|outs|, k requires 0 <= k < |outs| => Emission(outs[k], Forward(SignatureOf(m, outs[k]), args)))
  }

  /** The output names of a trace, in order. */
  function Names<O, V>(trace: seq<Emission<O, V>>): (r: seq<O>)
    ensures |r| == |trace|
    ensures forall k :: 0 <= k < |trace| ==> r[k] == trace[k].output
  {
    seq(|trace|, k requires 0 <= k < |trace| => trace[k].output)
  }

  /** Fire `calls` one after another from `s`; None as soon as one is unhandled. */
  function Run<S(==), I(==), O(==), V>(m: Machine<S, I, O>, s: S, calls: seq<Call<I, V>>): Option<(S, seq<Emission<O, V>>)>
    decreases |calls|
  {
    if calls == [] then Some((s, []))
    else
      var step :- Step(m.transitions, s, calls[0].input);
      var after :- Run(m, step.0, calls[1..]);
      Some((after.0, Emit(m, step.1, calls[0].args) + after.1))
  }

  // ---------------------------------------------------------------------------
  // Lemmas about the engine

  /** In a deterministic table, firing a row's input in its state takes exactly that row. */
  lemma {:induction false} StepFindsRow<S, I, O>(ts: seq<Transition<S, I, O>>, t: Transition<S, I, O>)
    requires Deterministic(ts) && t in ts
    ensures Step(ts, t.from, t.input) == Some((t.to, t.outputs))
  {
    if ts[0] != t {
      var k :| 0 <= k < |ts| && ts[k] == t;
      assert k > 0;
      assert !SameKey(ts[0], ts[k]);
      assert t in ts[1..] by { assert ts[1..][k - 1] == t; }
      assert Deterministic(ts[1..]) by {
        forall j, l | 0 <= j < l < |ts[1..]| ensures !SameKey(ts[1..][j], ts[1..][l]) {
          assert ts[1..][j] == ts[j + 1] && ts[1..][l] == ts[l + 1];
        }
      }
      StepFindsRow(ts[1..], t);
    }
  }

  /**
   * A deterministic table is the step function `f` when `f` gives every row's
   * target and outputs and names no pair outside the table.
   */
  lemma StepAgreesWith<S, I, O>(ts: seq<Transition<S, I, O>>, f: (S, I) -> Option<(S, seq<O>)>, s: S, i: I)
    requires Deterministic(ts)
    requires forall t :: t in ts ==> f(t.from, t.input) == Some((t.to, t.outputs))
    requires f(s, i).Some? ==> Transition(s, i, f(s, i).value.0, f(s, i).value.1) in ts
    ensures Step(ts, s, i) == f(s, i)
  {
    if f(s, i).Some? {
      StepFindsRow(ts, Transition(s, i, f(s, i).value.0, f(s, i).value.1));
    }
  }

  /** Looking up in a table extended at its end finds the base's rows first. */
  lemma {:induction false} StepAppend<S, I, O>(ts: seq<Transition<S, I, O>>, us: seq<Transition<S, I, O>>, s: S, i: I)
    ensures Step(ts + us, s, i) == if Step(ts, s, i).Some? then Step(ts, s, i) else Step(us, s, i)
  {
    if ts != [] {
      assert (ts + us)[0] == ts[0];
      assert (ts + us)[1..] == ts[1..] + us;
      StepAppend(ts[1..], us, s, i);
    } else {
      assert ts + us == us;
    }
  }

  /** A composed machine behaves as its base on every (state, input) the base handles. */
  lemma SubmachineKeepsBase<S, I, O>(base: Machine<S, I, O>, ext: Machine<S, I, O>, s: S, i: I)
    requires Submachine(base, ext).Success?
    requires Step(base.transitions, s, i).Some?
    ensures Step(Submachine(base, ext).value.transitions, s, i) == Step(base.transitions, s, i)
  {
    StepAppend(base.transitions, ext.transitions, s, i);
  }

  /** Firing a row never names an undeclared state or output in a well-formed machine. */
  lemma StepDeclared<S, I, O>(m: Machine<S, I, O>, s: S, i: I)
    requires WellFormed(m)
    requires Step(m.transitions, s, i).Some?
    ensures i in m.inputs && Step(m.transitions, s, i).value.0 in m.states
    ensures forall o :: o in Step(m.transitions, s, i).value.1 ==> o in m.outputs
  {
  }

  /**
   * The parameter rule at work: when an input is fired with exactly its own
   * parameters, every output of the row receives all of its required
   * parameters, only parameters it declares, and each with the input's value.
   */
  lemma FiredOutputsReceiveTheirArguments<S, I, O, V>(m: Machine<S, I, O>, s: S, i: I, args: map<ParamName, V>)
    requires WellFormed(m)
    requires i in m.inputs && args.Keys == m.inputs[i]
    requires Step(m.transitions, s, i).Some?
    ensures forall e :: e in Emit(m, Step(m.transitions, s, i).value.1, args) ==>
      && e.output in m.outputs
      && m.outputs[e.output].required <= e.args.Keys <= m.outputs[e.output].Params()
      && forall p :: p in e.args ==> p in args && e.args[p] == args[p]
  {
    var t :| t in m.transitions && t.from == s && t.input == i && Step(m.transitions, s, i).value == (t.to, t.outputs);
    assert SignatureFits(m, t);
    var emitted := Emit(m, t.outputs, args);
    forall e | e in emitted
      ensures e.output in m.outputs
      ensures m.outputs[e.output].required <= e.args.Keys <= m.outputs[e.output].Params()
    {
      var k :| 0 <= k < |emitted| && emitted[k] == e;
      assert Fits(m, i, t.outputs[k]);
    }
  }

  /**
   * Induction over firing: a property of (state, outputs so far) that every
   * single transition keeps is kept by any sequence of inputs.
   */
  lemma {:induction false} RunPreserves<S, I, O, V>(m: Machine<S, I, O>, inv: (S, seq<O>) -> bool, s: S, n: seq<O>, calls: seq<Call<I, V>>)
    requires forall s', n', i :: inv(s', n') && Step(m.transitions, s', i).Some? ==>
      inv(Step(m.transitions, s', i).value.0, n' + Step(m.transitions, s', i).value.1)
    requires inv(s, n)
    requires Run(m, s, calls).Some?
    ensures inv(Run(m, s, calls).value.0, n + Names(Run(m, s, calls).value.1))
    decreases |calls|
  {
    if calls != [] {
      var step := Step(m.transitions, s, calls[0].input).value;
      var after := Run(m, step.0, calls[1..]).value;
      RunPreserves(m, inv, step.0, n + step.1, calls[1..]);
      NamesAppend(Emit(m, step.1, calls[0].args), after.1);
      EmitKeepsOrder(m, step.1, calls[0].args);
      assert n + Names(Emit(m, step.1, calls[0].args) + after.1) == (n + step.1) + Names(after.1);
    } else {
      assert n + Names(Run(m, s, calls).value.1) == n;
    }
  }

  /** The trace of a row lists its outputs in the order the table gives them. */
  lemma EmitKeepsOrder<S, I, O, V>(m: Machine<S, I, O>, outs: seq<O>, args: map<ParamName, V>)
    ensures Names(Emit(m, outs, args)) == outs
  {
  }

  lemma NamesAppend<O, V>(a: seq<Emission<O, V>>, b: seq<Emission<O, V>>)
    ensures Names(a + b) == Names(a) + Names(b)
  {
  }
}
