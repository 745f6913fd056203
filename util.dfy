/**
 * The `util` module: the id counter, `extend`, the array branch of `forEach`,
 * `noThrow`, the fatal-error path `error` and the dialog helpers `message` and
 * `confirm`, together with the two `$js` flags they read.
 */
module Util {
  import opened Values
  import opened Events
  import opened Format

  // ------------------------------------------------------------------- nextID

  /** The closure variable `uid` behind `nextID`. */
  class IdSource {
    var uid: int

    ghost predicate Valid()
      reads this
    {
      uid >= 1
    }

    constructor ()
      ensures Valid() && uid == 1
    {
      uid := 1;
    }

    /** `nextID()`: `return uid++`. */
    method NextID() returns (id: int)
      requires Valid()
      modifies this
      ensures Valid()
      ensures id == old(uid) && uid == id + 1
      ensures id >= 1
    {
      id := uid;
      uid := uid + 1;
    }
  }

  /** A fresh counter hands out 1, 2, 3, ... in that order. */
  method FirstIds() returns (a: int, b: int, c: int)
    ensures a == 1 && b == a + 1 && c == b + 1
  {
    var ids := new IdSource();
    a := ids.NextID();
    b := ids.NextID();
    c := ids.NextID();
  }

  // ------------------------------------------------------------------- extend

  /** A truthy value that is neither an object nor a function: writing a property
      onto it throws a TypeError in strict mode. */
  predicate IsPrimitive(v: Value)
  {
    v.Bool? || v.Num? || v.Str?
  }

  /** `util.extend(me, withthis)`, with objects as values. The nested call
      `util.extend(me[i], withthis[i])` updates `me[i]` in place and its result is
      discarded; here its result is what `me[i]` becomes. A key whose value in
      `withthis` is an object (or null) and that `me` lacks is not copied, because
      the nested call gets `undefined` and does nothing. */
  function ExtendSpec(me: Value, w: Value): (r: Completion<Value>)
    ensures r.Thrown? ==> r.exception == TypeErrorValue && Truthy(w) && w.Obj?
    ensures r.Normal? && !me.Obj? ==> r.value == me
    ensures r.Normal? && me.Obj? ==> r.value.Obj?
    decreases w
  {
    if !Truthy(w) || !Truthy(me) || !w.Obj? then Normal(me)
    else if me.Obj? then
      var mp := me.props;
      var wp := w.props;
      if forall k :: k in wp && IsObjectLike(wp[k]) && k in mp ==> ExtendSpec(mp[k], wp[k]).Normal? then
        Normal(Obj(map k | k in mp.Keys + wp.Keys && (k in mp || !IsObjectLike(wp[k])) ::
                     if k !in wp then mp[k]
                     else if !IsObjectLike(wp[k]) then wp[k]
                     else ExtendSpec(mp[k], wp[k]).value))
      else Thrown(TypeErrorValue)
    else if IsPrimitive(me) && exists k :: k in w.props && !IsObjectLike(w.props[k]) then
      Thrown(TypeErrorValue)
    else Normal(me)
  }

  /** `extend` does nothing when either argument is falsy, and returns `me`. */
  lemma ExtendFalsy(me: Value, w: Value)
    requires !Truthy(me) || !Truthy(w)
    ensures ExtendSpec(me, w) == Normal(me)
  {
  }

  /** On two objects, a completed `extend` sets every key whose new value is not an
      object, leaves the keys `withthis` lacks as they were, merges nested objects
      key by key, and adds no key other than those. */
  lemma ExtendOnObjects(mp: map<string, Value>, wp: map<string, Value>)
    requires ExtendSpec(Obj(mp), Obj(wp)).Normal?
    ensures var r := ExtendSpec(Obj(mp), Obj(wp)).value;
            && r.Obj?
            && (forall k :: k in wp && !IsObjectLike(wp[k]) ==> k in r.props && r.props[k] == wp[k])
            && (forall k :: k in mp && k !in wp ==> k in r.props && r.props[k] == mp[k])
            && (forall k :: k in wp && IsObjectLike(wp[k]) && k in mp ==>
                  k in r.props && ExtendSpec(mp[k], wp[k]) == Normal(r.props[k]))
            && (forall k :: k in r.props <==> k in mp || (k in wp && !IsObjectLike(wp[k])))
  {
  }

  /** Extending twice with the same object changes nothing more. */
  lemma {:induction false} ExtendIdempotent(me: Value, w: Value)
    requires ExtendSpec(me, w).Normal?
    ensures ExtendSpec(ExtendSpec(me, w).value, w) == ExtendSpec(me, w)
    decreases w
  {
    if Truthy(w) && Truthy(me) && w.Obj? && me.Obj? {
      var mp, wp := me.props, w.props;
      var r := ExtendSpec(me, w).value;
      forall k | k in wp && IsObjectLike(wp[k]) && k in mp
        ensures ExtendSpec(r.props[k], wp[k]) == Normal(r.props[k])
      {
        ExtendIdempotent(mp[k], wp[k]);
      }
      var again := ExtendSpec(r, w).value;
      assert again.props.Keys == r.props.Keys;
      assert again == r;
    }
  }

  /** The object `me` whose properties `extend` assigns in place. */
  class JsObject {
    var props: map<string, Value>

    constructor (initial: map<string, Value>)
      ensures props == initial
    {
      props := initial;
    }

    /** `util.extend(this, withthis)`: the `for (var i in withthis)` loop, with
        `keys` the order in which `withthis` enumerates its keys. Returns `this`,
        or the TypeError a nested write onto a primitive throws; keys visited
        before that stay updated. */
    method Extend(w: Value, keys: seq<string>) returns (r: Completion<JsObject>)
      requires w.Obj? ==> forall k :: k in keys <==> k in w.props
      requires forall i, j :: 0 <= i < j < |keys| ==> keys[i] != keys[j]
      modifies this
      ensures ExtendSpec(Obj(old(props)), w).Normal? ==> r == Normal(this) && Obj(props) == ExtendSpec(Obj(old(props)), w).value
      ensures ExtendSpec(Obj(old(props)), w).Thrown? ==> r == Thrown(TypeErrorValue)
      ensures r.Thrown? ==> w.Obj? && StoppedAt(old(props), w.props, keys, props)
      ensures forall k :: k in old(props) && (!w.Obj? || k !in w.props) ==> k in props && props[k] == old(props)[k]
    {
      r := Normal(this);
      if !Truthy(w) || !w.Obj? {
        return;
      }
      var wp := w.props;
      ghost var mp := old(props);
      ghost var done: set<string> := {};
      var i := 0;
      while i < |keys|
        invariant 0 <= i <= |keys|
        invariant done <= wp.Keys
        invariant forall k :: k in done ==> Settled(mp, wp, k)
        invariant forall j :: 0 <= j < i ==> keys[j] in done
        invariant forall j :: i <= j < |keys| ==> keys[j] !in done
        invariant done == set j | 0 <= j < i :: keys[j]
        invariant props == Partial(mp, wp, done)
      {
        var k := keys[i];
        var v := wp[k];
        PartialStep(mp, wp, done, k);
        if IsObjectLike(v) {
          if k in props {
            var nested := ExtendSpec(props[k], v);
            if nested.Thrown? {
              r := Thrown(nested.exception);
              ExtendFailsAt(mp, wp, k);
              assert StoppedAtIndex(mp, wp, keys, props, i);
              return;
            }
            props := props[k := nested.value];
          }
        } else {
          props := props[k := v];
        }
        done := done + {k};
        i := i + 1;
      }
      assert done == wp.Keys;
      ExtendCompletes(mp, wp);
    }
  }

  /** Key `k` of `withthis` can be merged into `me` without a throw. */
  predicate Settled(mp: map<string, Value>, wp: map<string, Value>, k: string)
  {
    k in wp && (IsObjectLike(wp[k]) && k in mp ==> ExtendSpec(mp[k], wp[k]).Normal?)
  }

  /** The loop threw at `keys[n]`: every key before it merged, `props` holds
      exactly those merges, and `keys[n]` is the one that cannot be merged. */
  predicate StoppedAtIndex(mp: map<string, Value>, wp: map<string, Value>, keys: seq<string>,
                           props: map<string, Value>, n: int)
  {
    && 0 <= n < |keys|
    && (forall j :: 0 <= j < |keys| ==> keys[j] in wp)
    && (forall j :: 0 <= j < n ==> Settled(mp, wp, keys[j]))
    && !Settled(mp, wp, keys[n])
    && props == Partial(mp, wp, set j | 0 <= j < n :: keys[j])
  }

  predicate StoppedAt(mp: map<string, Value>, wp: map<string, Value>, keys: seq<string>, props: map<string, Value>)
  {
    exists n :: 0 <= n < |keys| && StoppedAtIndex(mp, wp, keys, props, n)
  }

  /** `me` after the keys in `done` have been merged. */
  function Partial(mp: map<string, Value>, wp: map<string, Value>, done: set<string>): (r: map<string, Value>)
    requires done <= wp.Keys
    requires forall k :: k in done ==> Settled(mp, wp, k)
    ensures forall k :: k in mp && k !in done ==> k in r && r[k] == mp[k]
  {
    map k | k in mp.Keys + done && (k in mp || !IsObjectLike(wp[k])) ::
      if k !in done then mp[k]
      else if !IsObjectLike(wp[k]) then wp[k]
      else assert Settled(mp, wp, k); ExtendSpec(mp[k], wp[k]).value
  }

  /** Merging one more key `k` updates `me` at `k` alone, as the loop body does. */
  lemma PartialStep(mp: map<string, Value>, wp: map<string, Value>, done: set<string>, k: string)
    requires done <= wp.Keys && k in wp && k !in done
    requires forall x :: x in done ==> Settled(mp, wp, x)
    ensures var p := Partial(mp, wp, done);
            && (k in p <==> k in mp)
            && (k in p ==> p[k] == mp[k])
            && (Settled(mp, wp, k) ==>
                  Partial(mp, wp, done + {k})
                  == if !IsObjectLike(wp[k]) then p[k := wp[k]]
                     else if k in mp then p[k := ExtendSpec(mp[k], wp[k]).value]
                     else p)
  {
    var p := Partial(mp, wp, done);
    if Settled(mp, wp, k) {
      var q := Partial(mp, wp, done + {k});
      var e := if !IsObjectLike(wp[k]) then p[k := wp[k]]
               else if k in mp then p[k := ExtendSpec(mp[k], wp[k]).value]
               else p;
      assert q.Keys == e.Keys;
      assert forall x :: x in q ==> q[x] == e[x];
    }
  }

  lemma ExtendFailsAt(mp: map<string, Value>, wp: map<string, Value>, k: string)
    requires k in wp && IsObjectLike(wp[k]) && k in mp && ExtendSpec(mp[k], wp[k]).Thrown?
    ensures ExtendSpec(Obj(mp), Obj(wp)) == Thrown(TypeErrorValue)
  {
  }

  lemma ExtendCompletes(mp: map<string, Value>, wp: map<string, Value>)
    requires forall k :: k in wp.Keys ==> Settled(mp, wp, k)
    ensures ExtendSpec(Obj(mp), Obj(wp)) == Normal(Obj(Partial(mp, wp, wp.Keys)))
  {
    assert forall k :: k in wp && IsObjectLike(wp[k]) && k in mp ==> Settled(mp, wp, k);
    var r := ExtendSpec(Obj(mp), Obj(wp));
    assert r.Normal?;
    assert r.value.props.Keys == Partial(mp, wp, wp.Keys).Keys;
  }

  // ------------------------------------------------------------------ forEach

  /** The iterator calls `util.forEach` makes on an array from index `k` on:
      `(element, index)` for each index that holds an element (holes of a sparse
      array are `None` and are skipped), stopping after a call that throws. */
  function Walk<T>(obj: seq<Option<T>>, k: nat, visit: (T, nat) -> Completion<Value>)
    : (r: (seq<(T, nat)>, Option<Value>))
    ensures forall p :: p in r.0 ==> k <= p.1 < |obj| && obj[p.1] == Some(p.0)
    ensures r.1.Some? ==> r.0 != [] && visit(r.0[|r.0| - 1].0, r.0[|r.0| - 1].1) == Thrown(r.1.value)
    decreases |obj| - k
  {
    if k >= |obj| then ([], None)
    else if obj[k].None? then Walk(obj, k + 1, visit)
    else match visit(obj[k].value, k)
      case Thrown(e) => ([(obj[k].value, k)], Some(e))
      case Normal(_) =>
        var rest := Walk(obj, k + 1, visit);
        ([(obj[k].value, k)] + rest.0, rest.1)
  }

  /** The array branch of `util.forEach(obj, visit)`: returns `obj`, or the
      exception an visit call throws. */
  method ForEach<T>(obj: seq<Option<T>>, visit: (T, nat) -> Completion<Value>)
    returns (calls: seq<(T, nat)>, result: Completion<seq<Option<T>>>)
    ensures calls == Walk(obj, 0, visit).0
    ensures result == match Walk(obj, 0, visit).1
                      case Some(e) => Thrown(e)
                      case None => Normal(obj)
  {
    calls := [];
    var key := 0;
    var length := |obj|;
    assert calls + Walk(obj, 0, visit).0 == Walk(obj, 0, visit).0;
    while key < length
      invariant 0 <= key <= length
      invariant Walk(obj, 0, visit).0 == calls + Walk(obj, key, visit).0
      invariant Walk(obj, 0, visit).1 == Walk(obj, key, visit).1
    {
      if obj[key].Some? {
        var c := visit(obj[key].value, key);
        ghost var before := calls;
        calls := calls + [(obj[key].value, key)];
        if c.Thrown? {
          assert Walk(obj, key, visit) == ([(obj[key].value, key)], Some(c.exception));
          result := Thrown(c.exception);
          return;
        }
        assert Walk(obj, key, visit).0 == [(obj[key].value, key)] + Walk(obj, key + 1, visit).0;
        AppendAssoc(before, [(obj[key].value, key)], Walk(obj, key + 1, visit).0);
      }
      key := key + 1;
    }
    assert calls == Walk(obj, 0, visit).0;
    result := Normal(obj);
  }

  /** When no call throws, the walk completes and every call it makes is an
      element `(obj[j], j)` with `k <= j`, in strictly increasing order of `j`. */
  lemma {:induction false} WalkInOrder<T>(obj: seq<Option<T>>, k: nat, visit: (T, nat) -> Completion<Value>)
    requires forall j :: k <= j < |obj| && obj[j].Some? ==> visit(obj[j].value, j).Normal?
    ensures var w := Walk(obj, k, visit).0;
            && Walk(obj, k, visit).1 == None
            && (forall m :: 0 <= m < |w| ==> k <= w[m].1 < |obj| && obj[w[m].1] == Some(w[m].0))
            && (forall m, n :: 0 <= m < n < |w| ==> w[m].1 < w[n].1)
    decreases |obj| - k
  {
    if k < |obj| {
      WalkInOrder(obj, k + 1, visit);
    }
  }

  /** Some call in `w` is made with index `j`. */
  predicate Visited<T>(w: seq<(T, nat)>, j: int)
  {
    exists m :: 0 <= m < |w| && w[m].1 == j
  }

  /** When no call throws, every index that holds an element is visited. */
  lemma {:induction false} WalkVisitsAll<T>(obj: seq<Option<T>>, k: nat, visit: (T, nat) -> Completion<Value>)
    requires forall j :: k <= j < |obj| && obj[j].Some? ==> visit(obj[j].value, j).Normal?
    ensures forall j :: k <= j < |obj| && obj[j].Some? ==> Visited(Walk(obj, k, visit).0, j)
    decreases |obj| - k
  {
    if k < |obj| {
      WalkVisitsAll(obj, k + 1, visit);
      var rest := Walk(obj, k + 1, visit).0;
      var w := Walk(obj, k, visit).0;
      if obj[k].Some? {
        assert w == [(obj[k].value, k)] + rest;
        forall j | k <= j < |obj| && obj[j].Some?
          ensures Visited(w, j)
        {
          if j == k {
            assert w[0].1 == j;
          } else {
            var m :| 0 <= m < |rest| && rest[m].1 == j;
            assert w[m + 1].1 == j;
          }
        }
      } else {
        assert w == rest;
      }
    }
  }

  /** On a dense array whose visit never throws, the calls are exactly
      `(obj[0], 0), (obj[1], 1), ...`. */
  lemma {:induction false} WalkDense<T>(obj: seq<Option<T>>, k: nat, visit: (T, nat) -> Completion<Value>)
    requires k <= |obj|
    requires forall j :: k <= j < |obj| ==> obj[j].Some? && visit(obj[j].value, j).Normal?
    ensures var w := Walk(obj, k, visit).0;
            && |w| == |obj| - k
            && forall m :: 0 <= m < |w| ==> w[m] == (obj[k + m].value, k + m)
    decreases |obj| - k
  {
    if k < |obj| {
      WalkDense(obj, k + 1, visit);
    }
  }

  // ------------------------------------------------------------------ noThrow

  /** `noThrow(func)`: `func && func()` inside a try whose catch is empty. `call`
      says how calling function `id` completes; calling a non-function throws a
      TypeError, which is caught as well. */
  function NoThrow(func: Value, call: nat -> Completion<Value>): (r: Value)
    ensures !Truthy(func) ==> r == func
    ensures func.Fn? && call(func.id).Normal? ==> r == call(func.id).value
    ensures func.Fn? && call(func.id).Thrown? ==> r == Undefined
    ensures Truthy(func) && !func.Fn? ==> r == Undefined
  {
    if !Truthy(func) then func
    else if func.Fn? then
      match call(func.id)
      case Normal(v) => v
      case Thrown(_) => Undefined
    else Undefined
  }

  // --------------------------------------------------- error, message, confirm

  /** The two `$js` flags the fatal-error path and the dialogs read. */
  class JumpStart {
    var suppressNextError: bool
    var guiAllowed: bool

    constructor ()
      ensures !suppressNextError && guiAllowed
    {
      suppressNextError := false;
      guiAllowed := true;
    }
  }

  /** What the error path and the dialogs do besides calling handlers:
      `browserProgress.hide()`, `$log.error(...)`, a `fire`, `$code.onerror()`,
      `$code.setZeroTimeout(callback)`. */
  datatype Effect<+H> =
    | HideProgress
    | Log(text: Value)
    | Fired(event: string, calls: seq<Invocation<H>>)
    | SchedulerError
    | Deferred(callback: Value)

  /** `new Error('ERROR_HANDLED')`, the exception that ends the current chain. */
  const ErrorHandled: Value := Obj(map["name" := Str("Error"), "message" := Str("ERROR_HANDLED")])

  /** The text `error(msg, ...args)` announces: `msg.message || msg`, and when
      that is a string, merged with the rest of the arguments by `formatString`.
      Reading `.message` of `undefined` or `null` throws. */
  function ErrorText(msg: Value, args: seq<Option<string>>): (r: Completion<Value>)
    ensures msg.Undefined? || msg.Null? ==> r == Thrown(TypeErrorValue)
    ensures msg.Str? ==> r == Normal(Str(FormatString(msg.s, args)))
    ensures msg.Obj? && Get(msg, "message").Str? && Get(msg, "message").s != "" ==>
              r == Normal(Str(FormatString(Get(msg, "message").s, args)))
    ensures msg.Obj? && !Truthy(Get(msg, "message")) ==> r == Normal(msg)
    ensures msg.Obj? && Truthy(Get(msg, "message")) && !Get(msg, "message").Str? ==>
              r == Normal(Get(msg, "message"))
    ensures msg.Bool? || msg.Num? || msg.Fn? ==> r == Normal(msg)
  {
    if msg.Undefined? || msg.Null? then Thrown(TypeErrorValue)
    else
      var m := Or(Get(msg, "message"), msg);
      if m.Str? then Normal(Str(FormatString(m.s, args))) else Normal(m)
  }

  /** What `util.error` does, given the flag `suppressNextError` before the call and
      the handler table: the effects in order, how the call ends, and the flag after. */
  function ErrorSpec<H>(suppress: bool, t: Table<H>, msg: Value, args: seq<Option<string>>,
                        apply: (H, seq<Value>) -> Completion<Value>)
    : (r: (seq<Effect<H>>, Completion<Value>, bool))
    ensures r.1.Normal? ==> suppress && !r.2 && r.1.value == Undefined
    ensures !suppress ==> r.1.Thrown? && !r.2
    ensures r.2 ==> suppress
  {
    match ErrorText(msg, args)
    case Thrown(e) => ([], Thrown(e), suppress)
    case Normal(m) =>
      var (onCalls, onResult) := FireSpec(Lookup(t, "on.error"), [m], apply);
      var announced := [HideProgress, Log(m), Fired("on.error", onCalls)];
      if onResult.Thrown? then (announced, onResult, suppress)
      else if !suppress then
        var (errCalls, errResult) := FireSpec(Lookup(t, "js.error"), [m], apply);
        (announced + [SchedulerError, Fired("js.error", errCalls)],
         if errResult.Thrown? then errResult else Thrown(ErrorHandled),
         suppress)
      else (announced + [SchedulerError], Normal(Undefined), false)
  }

  /** `util.error(msg, ...args)`. */
  method Error<H>(js: JumpStart, reg: Registry<H>, msg: Value, args: seq<Option<string>>,
                  apply: (H, seq<Value>) -> Completion<Value>)
    returns (trace: seq<Effect<H>>, outcome: Completion<Value>)
    modifies js
    ensures (trace, outcome, js.suppressNextError)
            == ErrorSpec(old(js.suppressNextError), reg.table, msg, args, apply)
    ensures js.guiAllowed == old(js.guiAllowed)
  {
    var text := ErrorText(msg, args);
    if text.Thrown? {
      trace, outcome := [], text;
      return;
    }
    var m := text.value;
    var calls, result := reg.Fire("on.error", [m], apply);
    var announced := [HideProgress, Log(m), Fired("on.error", calls)];
    trace := announced;
    if result.Thrown? {
      outcome := result;
      return;
    }
    trace := announced + [SchedulerError];
    if !js.suppressNextError {
      var errCalls, errResult := reg.Fire("js.error", [m], apply);
      trace := announced + [SchedulerError, Fired("js.error", errCalls)];
      result := errResult;
      if result.Thrown? {
        outcome := result;
        return;
      }
      outcome := Thrown(ErrorHandled);
      return;
    }
    js.suppressNextError := false;
    outcome := Normal(Undefined);
  }

  /** `on.error` is announced before anything else can happen to the error:
      the progress bar is hidden, the text logged, then `on.error` fired. */
  lemma ErrorAnnouncesFirst<H>(suppress: bool, t: Table<H>, msg: Value, args: seq<Option<string>>,
                               apply: (H, seq<Value>) -> Completion<Value>)
    requires ErrorText(msg, args).Normal?
    ensures var m := ErrorText(msg, args).value;
            var trace := ErrorSpec(suppress, t, msg, args, apply).0;
            |trace| >= 3 && trace[..3] == [HideProgress, Log(m), Fired("on.error", FireSpec(Lookup(t, "on.error"), [m], apply).0)]
  {
  }

  /** Without suppression and with handlers that do not throw: `on.error` fires,
      then `js.error` fires exactly once, then the call ends with `ERROR_HANDLED`. */
  lemma ErrorUnsuppressed<H>(t: Table<H>, msg: Value, args: seq<Option<string>>,
                             apply: (H, seq<Value>) -> Completion<Value>)
    requires ErrorText(msg, args).Normal?
    requires var m := ErrorText(msg, args).value;
             FireSpec(Lookup(t, "on.error"), [m], apply).1.Normal? && FireSpec(Lookup(t, "js.error"), [m], apply).1.Normal?
    ensures var m := ErrorText(msg, args).value;
            ErrorSpec(false, t, msg, args, apply)
            == ([HideProgress, Log(m), Fired("on.error", FireSpec(Lookup(t, "on.error"), [m], apply).0),
                 SchedulerError, Fired("js.error", FireSpec(Lookup(t, "js.error"), [m], apply).0)],
                Thrown(ErrorHandled), false)
  {
    var m := ErrorText(msg, args).value;
    var announced := [HideProgress, Log(m), Fired("on.error", FireSpec(Lookup(t, "on.error"), [m], apply).0)];
    var rest := [SchedulerError, Fired("js.error", FireSpec(Lookup(t, "js.error"), [m], apply).0)];
    assert announced + rest == [announced[0], announced[1], announced[2], rest[0], rest[1]];
  }

  /** With suppression set: `js.error` never fires, the call returns normally and
      the flag is false afterwards. */
  lemma ErrorSuppressed<H>(t: Table<H>, msg: Value, args: seq<Option<string>>,
                           apply: (H, seq<Value>) -> Completion<Value>)
    requires ErrorText(msg, args).Normal?
    requires FireSpec(Lookup(t, "on.error"), [ErrorText(msg, args).value], apply).1.Normal?
    ensures var (trace, outcome, after) := ErrorSpec(true, t, msg, args, apply);
            && (forall i :: 0 <= i < |trace| ==> !(trace[i].Fired? && trace[i].event == "js.error"))
            && outcome == Normal(Undefined)
            && !after
  {
  }

  /** The flag is left set only when it was set and the call threw before reading
      it (reading `msg.message` failed, or an `on.error` handler threw). */
  lemma ErrorFlagAfterwards<H>(suppress: bool, t: Table<H>, msg: Value, args: seq<Option<string>>,
                               apply: (H, seq<Value>) -> Completion<Value>)
    ensures var after := ErrorSpec(suppress, t, msg, args, apply).2;
            after <==> suppress && (ErrorText(msg, args).Thrown?
                                    || FireSpec(Lookup(t, "on.error"), [ErrorText(msg, args).value], apply).1.Thrown?)
  {
  }

  /** `title || 'Application Message'` and its kin. */
  function DefaultTitle(title: Value, default: string): (r: Value)
    ensures Truthy(title) ==> r == title
    ensures !Truthy(title) ==> r == Str(default)
  {
    Or(title, Str(default))
  }

  /** `util.message(msg, callbackFn, title)`. Without a GUI the callback (when
      given) is only deferred; otherwise `js.message` is fired with the title
      defaulted. Its result is dropped: the call returns `undefined`. */
  method Message<H>(js: JumpStart, reg: Registry<H>, msg: Value, callback: Value, title: Value,
                    apply: (H, seq<Value>) -> Completion<Value>)
    returns (effects: seq<Effect<H>>, outcome: Completion<Value>)
    ensures !js.guiAllowed ==>
              effects == (if Truthy(callback) then [Deferred(callback)] else []) && outcome == Normal(Undefined)
    ensures js.guiAllowed ==>
              var (calls, result) := FireSpec(Lookup(reg.table, "js.message"),
                                              [msg, callback, DefaultTitle(title, "Application Message")], apply);
              effects == [Fired("js.message", calls)]
              && outcome == (if result.Thrown? then result else Normal(Undefined))
  {
    if !js.guiAllowed {
      effects := if Truthy(callback) then [Deferred(callback)] else [];
      outcome := Normal(Undefined);
      return;
    }
    var t := DefaultTitle(title, "Application Message");
    var calls, result := reg.Fire("js.message", [msg, callback, t], apply);
    effects := [Fired("js.message", calls)];
    outcome := if result.Thrown? then result else Normal(Undefined);
  }

  /** `util.confirm(msg, callbackFn, title, yescaption, nocaption)`: as `message`,
      with `js.confirm`, the default title `'Application Confirmation'` and the two
      captions passed on as given. */
  method Confirm<H>(js: JumpStart, reg: Registry<H>, msg: Value, callback: Value, title: Value,
                    yes: Value, no: Value, apply: (H, seq<Value>) -> Completion<Value>)
    returns (effects: seq<Effect<H>>, outcome: Completion<Value>)
    ensures !js.guiAllowed ==>
              effects == (if Truthy(callback) then [Deferred(callback)] else []) && outcome == Normal(Undefined)
    ensures js.guiAllowed ==>
              var (calls, result) := FireSpec(Lookup(reg.table, "js.confirm"),
                                              [msg, callback, DefaultTitle(title, "Application Confirmation"), yes, no],
                                              apply);
              effects == [Fired("js.confirm", calls)]
              && outcome == (if result.Thrown? then result else Normal(Undefined))
  {
    if !js.guiAllowed {
      effects := if Truthy(callback) then [Deferred(callback)] else [];
      outcome := Normal(Undefined);
      return;
    }
    var t := DefaultTitle(title, "Application Confirmation");
    var calls, result := reg.Fire("js.confirm", [msg, callback, t, yes, no], apply);
    effects := [Fired("js.confirm", calls)];
    outcome := if result.Thrown? then result else Normal(Undefined);
  }
}
