/**
 * The event registry `$event`: a name-keyed table of handler lists, with the
 * eager dispatcher `fire` and the step-by-step dispatcher `fireWait`.
 *
 * Handlers are abstract values of type `H`; what calling one does is given by
 * `apply(handler, args)`, which returns or throws. A dispatch records the
 * invocations it makes, in the order it makes them.
 */
module Events {
  import opened Values
  import opened Scheduler

  /** The module-level `event` object. A name that is not a key reads as
      `undefined`; `None` is the `null` that `unbind` stores. */
  type Table<H> = map<string, Option<seq<H>>>

  /** `event[name]`, with `undefined` and `null` both read as `None`. */
  function Lookup<H>(t: Table<H>, name: string): Option<seq<H>>
  {
    if name in t then t[name] else None
  }

  /** `bind`: `event[name] = event[name] || []; event[name].push(handler)`. */
  function BindTable<H>(t: Table<H>, name: string, handler: H): (r: Table<H>)
    ensures Lookup(t, name).None? ==> Lookup(r, name) == Some([handler])
    ensures Lookup(t, name).Some? ==> Lookup(r, name) == Some(Lookup(t, name).value + [handler])
    ensures r.Keys == t.Keys + {name}
    ensures forall n :: n in t && n != name ==> r[n] == t[n]
  {
    var list := if name in t && t[name].Some? then t[name].value else [];
    assert list == [] ==> list + [handler] == [handler];
    t[name := Some(list + [handler])]
  }

  /** `unbind`: `event[name] = null`. */
  function UnbindTable<H>(t: Table<H>, name: string): (r: Table<H>)
    ensures Lookup(r, name).None? && name in r
    ensures r.Keys == t.Keys + {name}
    ensures forall n :: n in t && n != name ==> r[n] == t[n]
  {
    t[name := None]
  }

  /** One call of a handler with the arguments of the dispatch. */
  datatype Invocation<+H> = Invocation(handler: H, args: seq<Value>)

  /** The invocations of `hs`, each with `args`, in list order. */
  function Invocations<H>(hs: seq<H>, args: seq<Value>): (r: seq<Invocation<H>>)
    ensures |r| == |hs|
    ensures forall k :: 0 <= k < |hs| ==> r[k] == Invocation(hs[k], args)
    decreases |hs|
  {
    if hs == [] then [] else Invocations(hs[..|hs| - 1], args) + [Invocation(hs[|hs| - 1], args)]
  }

  /** The index of the first handler that throws when called with `args`, or `|hs|`. */
  function FirstThrow<H>(hs: seq<H>, args: seq<Value>, apply: (H, seq<Value>) -> Completion<Value>): (r: nat)
    ensures r <= |hs|
    ensures forall k :: 0 <= k < r ==> apply(hs[k], args).Normal?
    ensures r < |hs| ==> apply(hs[r], args).Thrown?
    decreases |hs|
  {
    if hs == [] || apply(hs[0], args).Thrown? then 0 else 1 + FirstThrow(hs[1..], args, apply)
  }

  /** How many handlers a sequential dispatch calls: all of them, or up to and
      including the first that throws. */
  function Reached<H>(hs: seq<H>, args: seq<Value>, apply: (H, seq<Value>) -> Completion<Value>): (n: nat)
    ensures n <= |hs|
    ensures FirstThrow(hs, args, apply) < |hs| ==> n == FirstThrow(hs, args, apply) + 1
    ensures FirstThrow(hs, args, apply) == |hs| ==> n == |hs|
  {
    var f := FirstThrow(hs, args, apply);
    if f < |hs| then f + 1 else |hs|
  }

  /** What `fire(name, ...args)` does with the entry `event[name]`: the invocations
      it makes and how it completes. */
  function FireSpec<H>(entry: Option<seq<H>>, args: seq<Value>, apply: (H, seq<Value>) -> Completion<Value>)
    : (r: (seq<Invocation<H>>, Completion<Value>))
    ensures entry.None? ==> r.0 == []
    ensures entry.Some? ==> |r.0| <= |entry.value| && r.0 == Invocations(entry.value[..|r.0|], args)
  {
    match entry
    case None => ([], Normal(Undefined))
    case Some(hs) =>
      var f := FirstThrow(hs, args, apply);
      var calls := Invocations(hs[..Reached(hs, args, apply)], args);
      if f < |hs| then (calls, apply(hs[f], args))
      else if |hs| == 1 then (calls, apply(hs[0], args))
      else (calls, Normal(Undefined))
  }

  /** What `fireWait(name, ...args)` does with the entry `event[name]`: the
      invocations its steps make and the handle `$code.loop` gives back, or `None`
      (`undefined`) when there is nothing to run. */
  function FireWaitSpec<H>(entry: Option<seq<H>>, args: seq<Value>, apply: (H, seq<Value>) -> Completion<Value>)
    : (r: (seq<Invocation<H>>, Option<LoopOutcome>))
    ensures r.1.None? <==> entry.None? || entry.value == []
    ensures r.1.None? ==> r.0 == []
    ensures entry.Some? ==> |r.0| <= |entry.value| && r.0 == Invocations(entry.value[..|r.0|], args)
  {
    match entry
    case None => ([], None)
    case Some(hs) =>
      if |hs| == 0 then ([], None)
      else
        var f := FirstThrow(hs, args, apply);
        (Invocations(hs[..Reached(hs, args, apply)], args),
         Some(if f < |hs| then Aborted(apply(hs[f], args).exception) else Finished))
  }

  /** Step `i` of `fireWait`: the body calls `ref[i]` with the shared arguments;
      the continuation answers `$code.next` only while `i < ref.length - 1`. */
  function WaitStep<H>(ref: seq<H>, args: seq<Value>, apply: (H, seq<Value>) -> Completion<Value>, i: nat)
    : (s: Step<Invocation<H>>)
    requires i < |ref|
    ensures s.effect == Invocation(ref[i], args)
    ensures s.signal.Next? <==> apply(ref[i], args).Normal? && i < |ref| - 1
    ensures s.signal.Failed? <==> apply(ref[i], args).Thrown?
    ensures s.signal.Failed? ==> s.signal.error == apply(ref[i], args).exception
  {
    var body := apply(ref[i], args);
    var signal := match body
                  case Thrown(e) => Failed(e)
                  case Normal(_) => if i < |ref| - 1 then Next else Done;
    Step(Invocation(ref[i], args), signal)
  }

  /** The step function `fireWait` hands to `$code.loop`. */
  function Stepper<H>(ref: seq<H>, args: seq<Value>, apply: (H, seq<Value>) -> Completion<Value>)
    : nat --> Step<Invocation<H>>
  {
    (i: nat) requires i < |ref| => WaitStep(ref, args, apply, i)
  }

  /** The steps of `fireWait` keep the driver's protocol: they stop within `|ref|` steps. */
  lemma StepperKeepsProtocol<H>(ref: seq<H>, args: seq<Value>, apply: (H, seq<Value>) -> Completion<Value>)
    requires |ref| > 0
    ensures Protocol(Stepper(ref, args, apply), |ref|)
  {
    var step := Stepper(ref, args, apply);
    forall i: nat | i < |ref|
      ensures step.requires(i) && (step(i).signal.Next? ==> i + 1 < |ref|)
    {
      assert step(i) == WaitStep(ref, args, apply, i);
    }
  }

  class Registry<H> {
    var table: Table<H>

    /** An empty registry. */
    constructor ()
      ensures table == map[]
    {
      table := map[];
    }

    /** The registry as the library leaves it at start-up: one default handler
        bound to each of `js.message`, `js.confirm` and `js.error`. */
    constructor WithDefaults(message: H, confirm: H, error: H)
      ensures Lookup(table, "js.message") == Some([message])
      ensures Lookup(table, "js.confirm") == Some([confirm])
      ensures Lookup(table, "js.error") == Some([error])
      ensures table.Keys == {"js.message", "js.confirm", "js.error"}
    {
      table := BindTable(BindTable(BindTable(map[], "js.message", message), "js.confirm", confirm), "js.error", error);
    }

    /** `exists(name)`: the entry is neither `null` nor `undefined`. */
    predicate Exists(name: string)
      reads this
      ensures Exists(name) <==> Lookup(table, name).Some?
    {
      name in table && table[name] != None
    }

    method Bind(name: string, handler: H)
      modifies this
      ensures table == BindTable(old(table), name, handler)
    {
      table := BindTable(table, name, handler);
    }

    method Unbind(name: string)
      modifies this
      ensures table == UnbindTable(old(table), name)
    {
      table := UnbindTable(table, name);
    }

    /** `fire(name, ...args)`: call every handler in registration order; pass the
        result through when there is exactly one handler, otherwise return
        `undefined`. A handler that throws ends the dispatch with its exception. */
    method Fire(name: string, args: seq<Value>, apply: (H, seq<Value>) -> Completion<Value>)
      returns (calls: seq<Invocation<H>>, result: Completion<Value>)
      ensures (calls, result) == FireSpec(Lookup(table, name), args, apply)
    {
      calls, result := [], Normal(Undefined);
      var entry := Lookup(table, name);
      if entry.Some? {
        var ref := entry.value;
        var i := 0;
        while i < |ref|
          invariant 0 <= i <= |ref|
          invariant i <= FirstThrow(ref, args, apply)
          invariant |ref| == 1 ==> i == 0
          invariant calls == Invocations(ref[..i], args)
          invariant result == Normal(Undefined)
        {
          var handler := ref[i];
          assert ref[..i + 1][..i] == ref[..i];
          calls := calls + [Invocation(handler, args)];
          var c := apply(handler, args);
          if |ref| == 1 {
            result := c;
            return;
          }
          if c.Thrown? {
            result := c;
            return;
          }
          i := i + 1;
        }
        assert ref[..i] == ref;
      }
    }

    /** `fireWait(name, ...args)`: hand `$code.loop` a step function whose step
        `i` calls handler `i`; return what the loop returns, or `undefined` when
        the name is unbound or its list is empty. */
    method FireWait(name: string, args: seq<Value>, apply: (H, seq<Value>) -> Completion<Value>)
      returns (calls: seq<Invocation<H>>, handle: Option<LoopOutcome>)
      ensures (calls, handle) == FireWaitSpec(Lookup(table, name), args, apply)
    {
      calls, handle := [], None;
      var entry := Lookup(table, name);
      if entry.Some? {
        var ref := entry.value;
        if |ref| > 0 {
          var step := Stepper(ref, args, apply);
          StepperKeepsProtocol(ref, args, apply);
          var outcome;
          calls, outcome := Loop(step, |ref|);
          handle := Some(outcome);
          LoopRunsReachedSteps(ref, args, apply, calls, outcome);
        }
      }
    }
  }

  /** Whatever `$code.loop` can return for the steps of `fireWait` (given the
      driver's contract) is what `FireWaitSpec` describes. */
  lemma LoopRunsReachedSteps<H>(ref: seq<H>, args: seq<Value>, apply: (H, seq<Value>) -> Completion<Value>,
                                trace: seq<Invocation<H>>, outcome: LoopOutcome)
    requires 0 < |trace| <= |ref|
    requires forall k :: 0 <= k < |trace| ==> trace[k] == WaitStep(ref, args, apply, k).effect
    requires forall k :: 0 <= k < |trace| - 1 ==> WaitStep(ref, args, apply, k).signal.Next?
    requires !WaitStep(ref, args, apply, |trace| - 1).signal.Next?
    requires outcome == match WaitStep(ref, args, apply, |trace| - 1).signal
                        case Failed(e) => Aborted(e)
                        case _ => Finished
    ensures (trace, Some(outcome)) == FireWaitSpec(Some(ref), args, apply)
  {
    var t := |trace| - 1;
    var f := FirstThrow(ref, args, apply);
    forall k | 0 <= k < t
      ensures apply(ref[k], args).Normal?
    {
      assert WaitStep(ref, args, apply, k).signal.Next?;
    }
    if apply(ref[t], args).Thrown? {
      assert f == t;
    } else {
      assert t == |ref| - 1;
      assert f == |ref|;
    }
    assert Reached(ref, args, apply) == |trace|;
    var expected := Invocations(ref[..|trace|], args);
    assert forall k :: 0 <= k < |trace| ==> trace[k] == expected[k];
    assert trace == expected;
    if f < |ref| {
      assert f == t && outcome == Aborted(apply(ref[f], args).exception);
    } else {
      assert outcome == Finished;
    }
  }
}

/** Properties of the registry and of the two dispatchers. */
module EventLaws {
  import opened Values
  import opened Scheduler
  import opened Events

  /** `bind` called once per element of `hs`, in order. */
  function BindAll<H>(t: Table<H>, name: string, hs: seq<H>): Table<H>
    decreases |hs|
  {
    if hs == [] then t else BindAll(BindTable(t, name, hs[0]), name, hs[1..])
  }

  /** Binds accumulate in call order, duplicates included, after whatever list
      the name already had (none for a name never bound or unbound). */
  lemma {:induction false} BindAllAppends<H>(t: Table<H>, name: string, hs: seq<H>)
    requires |hs| > 0
    ensures Lookup(BindAll(t, name, hs), name)
            == Some((if Lookup(t, name).Some? then Lookup(t, name).value else []) + hs)
    decreases |hs|
  {
    var before := if Lookup(t, name).Some? then Lookup(t, name).value else [];
    var t' := BindTable(t, name, hs[0]);
    assert Lookup(t', name) == Some(before + [hs[0]]);
    if |hs| > 1 {
      BindAllAppends(t', name, hs[1..]);
      assert (before + [hs[0]]) + hs[1..] == before + hs;
    } else {
      assert hs[1..] == [] && hs == [hs[0]];
    }
  }

  /** Binds under one name leave every other name's entry alone. */
  lemma {:induction false} BindAllKeepsOthers<H>(t: Table<H>, name: string, hs: seq<H>, other: string)
    requires other != name
    ensures Lookup(BindAll(t, name, hs), other) == Lookup(t, other)
    decreases |hs|
  {
    if hs != [] {
      BindAllKeepsOthers(BindTable(t, name, hs[0]), name, hs[1..], other);
    }
  }

  /** After `unbind`, earlier binds are gone: the name does not exist, and the
      next `bind` starts a fresh list holding only its handler. */
  lemma UnbindForgetsEarlierHandlers<H>(t: Table<H>, name: string, hs: seq<H>, h: H)
    ensures Lookup(UnbindTable(BindAll(t, name, hs), name), name).None?
    ensures Lookup(BindTable(UnbindTable(BindAll(t, name, hs), name), name, h), name) == Some([h])
  {
  }

  /** A call of `bind` or `unbind`, as a step of a registry's history. */
  datatype Op<+H> = BindOp(name: string, handler: H) | UnbindOp(name: string)

  function ApplyOp<H>(t: Table<H>, op: Op<H>): Table<H>
  {
    match op
    case BindOp(n, h) => BindTable(t, n, h)
    case UnbindOp(n) => UnbindTable(t, n)
  }

  /** The table after the calls of `ops`, in order. */
  function Run<H>(t: Table<H>, ops: seq<Op<H>>): Table<H>
    decreases |ops|
  {
    if ops == [] then t else Run(ApplyOp(t, ops[0]), ops[1..])
  }

  /** `ops` holds no `bind` of `name` (it may hold `unbind`s of it). */
  predicate NeverBinds<H>(ops: seq<Op<H>>, name: string)
  {
    forall k :: 0 <= k < |ops| ==> !(ops[k].BindOp? && ops[k].name == name)
  }

  /** A name that has no list and that no later call binds still has no list,
      whatever else is bound or unbound in between. */
  lemma {:induction false} ExistsNeverBound<H>(t: Table<H>, ops: seq<Op<H>>, name: string)
    requires Lookup(t, name).None?
    requires NeverBinds(ops, name)
    ensures Lookup(Run(t, ops), name).None?
    decreases |ops|
  {
    if ops != [] {
      assert !(ops[0].BindOp? && ops[0].name == name);
      assert forall k :: 0 <= k < |ops| - 1 ==> ops[1..][k] == ops[k + 1];
      ExistsNeverBound(ApplyOp(t, ops[0]), ops[1..], name);
    }
  }

  /** On a registry whose table is the result of a history that never binds
      `name`, starting from `{}`, `exists(name)` is false. */
  lemma RegistryNeverBound<H>(r: Registry<H>, ops: seq<Op<H>>, name: string)
    requires r.table == Run(map[], ops)
    requires NeverBinds(ops, name)
    ensures !r.Exists(name)
  {
    ExistsNeverBound(map[], ops, name);
  }

  /** The members every plain object inherits from `Object.prototype`. */
  const InheritedNames: set<string> :=
    {"constructor", "hasOwnProperty", "isPrototypeOf", "propertyIsEnumerable", "toLocaleString",
     "toString", "valueOf", "__proto__", "__defineGetter__", "__defineSetter__",
     "__lookupGetter__", "__lookupSetter__"}

  /** `exists(name)` as written: `event` is a plain object `{}`, so for a name it
      has no own entry for, `event[name]` reads the inherited member, which is
      neither `null` nor `undefined`. Writing `event['__proto__']` (as
      `unbind('__proto__')` does) goes through the inherited setter instead: it
      leaves `event` with no prototype, and so with no inherited members. */
  function ExistsAsWritten<H>(t: Table<H>, name: string): (r: bool)
    ensures name in t ==> (r <==> t[name].Some?)
    ensures name !in t ==> (r <==> name in InheritedNames && "__proto__" !in t)
  {
    if name in t then t[name].Some? else name in InheritedNames && "__proto__" !in t
  }

  /** On a registry where nothing was ever bound, `exists('toString')` holds as
      written, although no handler list exists for that name. */
  lemma ExistsAsWrittenOnFreshTable<H>()
    ensures ExistsAsWritten<H>(map[], "toString")
    ensures Lookup<H>(map[], "toString").None?
  {
  }

  /** Once `unbind('__proto__')` has cut the table off from `Object.prototype`,
      `exists('toString')` is false as written too. */
  lemma ExistsAsWrittenAfterProtoUnbind<H>()
    ensures !ExistsAsWritten<H>(UnbindTable(map[], "__proto__"), "toString")
    ensures ExistsAsWritten<H>(UnbindTable(map[], "valueOf"), "toString")
  {
  }

  /** `fire` on an unbound name calls nothing and returns `undefined`. */
  lemma FireUnbound<H>(t: Table<H>, name: string, args: seq<Value>, apply: (H, seq<Value>) -> Completion<Value>)
    requires Lookup(t, name).None?
    ensures FireSpec(Lookup(t, name), args, apply) == ([], Normal(Undefined))
  {
  }

  /** With exactly one handler, `fire` calls it once and passes its completion
      (value or exception) through unchanged. */
  lemma FireSingleHandler<H>(h: H, args: seq<Value>, apply: (H, seq<Value>) -> Completion<Value>)
    ensures FireSpec(Some([h]), args, apply) == ([Invocation(h, args)], apply(h, args))
  {
    assert [h][..1] == [h];
    var calls := Invocations([h], args);
    assert calls == [Invocation(h, args)];
  }

  /** With two or more handlers none of which throws, `fire` calls each exactly
      once, in registration order, all with the same arguments, and returns
      `undefined`. */
  lemma FireManyHandlers<H>(hs: seq<H>, args: seq<Value>, apply: (H, seq<Value>) -> Completion<Value>)
    requires |hs| >= 2
    requires forall k :: 0 <= k < |hs| ==> apply(hs[k], args).Normal?
    ensures var (calls, result) := FireSpec(Some(hs), args, apply);
            && |calls| == |hs|
            && (forall k :: 0 <= k < |hs| ==> calls[k] == Invocation(hs[k], args))
            && result == Normal(Undefined)
  {
    assert FirstThrow(hs, args, apply) == |hs|;
    assert hs[..|hs|] == hs;
  }

  /** A handler that throws ends `fire`: the handlers before it and it itself were
      called, none after it, and its exception reaches the caller. */
  lemma FireStopsAtThrow<H>(hs: seq<H>, args: seq<Value>, apply: (H, seq<Value>) -> Completion<Value>, k: nat)
    requires k < |hs|
    requires forall j :: 0 <= j < k ==> apply(hs[j], args).Normal?
    requires apply(hs[k], args).Thrown?
    ensures FireSpec(Some(hs), args, apply) == (Invocations(hs[..k + 1], args), apply(hs[k], args))
  {
    assert FirstThrow(hs, args, apply) == k;
  }

  /** `fireWait` on an unbound name (or an empty list) runs no step and returns `undefined`. */
  lemma FireWaitUnbound<H>(entry: Option<seq<H>>, args: seq<Value>, apply: (H, seq<Value>) -> Completion<Value>)
    requires entry.None? || entry == Some([])
    ensures FireWaitSpec(entry, args, apply) == ([], None)
  {
  }

  /** Driven from step 0, `fireWait` runs handlers `0..n-1` once each, in order,
      and its handle reports the finished sequence, not any handler's value. */
  lemma FireWaitRunsAllInOrder<H>(hs: seq<H>, args: seq<Value>, apply: (H, seq<Value>) -> Completion<Value>)
    requires |hs| > 0
    requires forall k :: 0 <= k < |hs| ==> apply(hs[k], args).Normal?
    ensures var (calls, handle) := FireWaitSpec(Some(hs), args, apply);
            && |calls| == |hs|
            && (forall k :: 0 <= k < |hs| ==> calls[k] == Invocation(hs[k], args))
            && handle == Some(Finished)
  {
    assert FirstThrow(hs, args, apply) == |hs|;
    assert hs[..|hs|] == hs;
  }

  /** Both dispatchers reach the same handlers in the same order; they differ
      only in what they give back. */
  lemma FireWaitCallsLikeFire<H>(entry: Option<seq<H>>, args: seq<Value>, apply: (H, seq<Value>) -> Completion<Value>)
    ensures FireWaitSpec(entry, args, apply).0 == FireSpec(entry, args, apply).0
  {
  }

  /** A `fireWait` step that throws aborts the sequence with that exception: no
      later step runs. */
  lemma FireWaitStopsAtThrow<H>(hs: seq<H>, args: seq<Value>, apply: (H, seq<Value>) -> Completion<Value>, k: nat)
    requires k < |hs|
    requires forall j :: 0 <= j < k ==> apply(hs[j], args).Normal?
    requires apply(hs[k], args).Thrown?
    ensures FireWaitSpec(Some(hs), args, apply)
            == (Invocations(hs[..k + 1], args), Some(Aborted(apply(hs[k], args).exception)))
  {
    assert FirstThrow(hs, args, apply) == k;
  }
}
