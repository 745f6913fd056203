# jumpstart.js core, modelled in Dafny

This project models the core of jumpstart.js, a small browser library:

- **The event registry `$event`** (`src/Core/event.js`). It is a name-keyed table of handler lists with `exists`, `bind` and `unbind`, and it has two dispatchers:
  - `fire` invokes every handler eagerly, in registration order.
  - `fireWait` makes one call per step of the cooperative `$code.loop` driver.
- **The utilities of `util`** (`src/Core/util.js`):
  - the `{n}` substitution of `formatString`;
  - the string half of `mergeTemplate`;
  - the counter `nextID`;
  - the in-place deep merge `extend`;
  - the array branch of `forEach` and `noThrow`;
  - the fatal-error path `error`, with its one-shot `$js.suppressNextError` flag;
  - the dialog helpers `message` and `confirm`, with their `$js.guiAllowed` guard.
- **The CSS text generation of `style`** (`src/Core/style.js`): the placeholder filling of `mergeSettings`, and the text that `load` appends for each class.

Files:

- `values.dfy`:
  - JavaScript values (`Value`): `undefined`, `null`, booleans, numbers, strings, functions as identities, and objects as maps;
  - truthiness, `a || b` and property reads;
  - how a call completes (`Completion`: it returns or throws).
- `strings.dfy`: `indexOf`, `replace` with a string pattern (first occurrence only), and decimal digit runs.
- `scheduler.dfy`: the `$code.loop`/`$code.block` driver. It runs step 0, 1, … for as long as the continuation answers `next`. A step whose body throws aborts the loop.
- `event.dfy`:
  - the table;
  - the class `Registry` with its `Exists`, `Bind`, `Unbind`, `Fire` and `FireWait`;
  - the specification functions `FireSpec` and `FireWaitSpec` they are proved against;
  - the laws in module `EventLaws`.
- `format.dfy`: `formatString` and `mergeTemplate` as the regular-expression scans they are. A match is replaced, the scan resumes after it, and replacement text is never rescanned.
- `util.dfy`:
  - the class `IdSource` (the `uid` counter);
  - `ExtendSpec` as a specification function, and `JsObject.Extend` as the in-place for-in loop;
  - `ForEach`, `NoThrow`, `Error`, `Message`, `Confirm`;
  - the class `JumpStart` holding the two flags.
- `style.dfy`: `MergeSettings` and `Load`, with the loops of the source, proved against the functions `MergeSpec` and `ClassCss`.

Handlers are abstract values of a type parameter `H`. What calling a handler does is given by a function `apply(handler, args)`, which returns a value or throws one. Each dispatch returns the list of invocations it made, in order, together with its result.

The fatal-error path also records its effects, in order: hiding the progress bar, the log line, each `fire`, and `$code.onerror()`. These effects come back as a trace, and the lemmas are stated about that trace. The dialog helpers `message` and `confirm` record at most one effect when the GUI is not allowed: deferring the callback with `$code.setZeroTimeout`, and only when the callback is truthy.

How `util.error` resets the flag: in `util.js` the flag is cleared only on the path where it suppressed `js.error`. If reading `msg.message` throws, or an `on.error` handler throws, the flag stays set. The model follows the code here, although one might expect the flag to be "always reset".

The captions of `util.confirm`: its doc comment (`util.js:175-176`) gives `yescaption` the default `"OK"` and `nocaption` the default `"Cancel"`, but the code (`util.js:190`) passes both on as given, and the default `js.confirm` handler ignores them. The model follows the code.

## Model

| member | source | states |
|---|---|---|
| `Events.BindTable` | src/Core/event.js:13-16 | `bind` creates `[h]` for an unbound or unbound-after-`unbind` name and otherwise appends `h` at the end (no deduplication); the key set grows by the name only; every other name is unchanged |
| `Events.UnbindTable` | src/Core/event.js:18-20 | after `unbind` the entry reads as `null` (no list) while the key stays; every other name is unchanged |
| `Events.FireSpec` | src/Core/event.js:54-73 | `fire` on an entry: nothing is called for `null` or a missing entry; otherwise the calls are the handlers of a prefix of the list, in order, each with the dispatch's arguments |
| `Events.FireWaitSpec` | src/Core/event.js:22-52 | `fireWait` on an entry: no loop is started (`undefined`) exactly when the entry is `null`, missing or empty; the calls are the handlers of a prefix of the list, in order, each with the dispatch's arguments |
| `Events.Registry.constructor` | src/Core/event.js:5 | a fresh registry has an empty table |
| `Events.Registry.WithDefaults` | src/Core/event.js:81-106 | at init exactly `js.message`, `js.confirm` and `js.error` are bound, each to a single default handler |
| `Events.Registry.Exists` | src/Core/event.js:9-11 | `exists(name)` holds exactly when the entry is a list, i.e. is neither `null` nor missing |
| `Events.Registry.Bind` | src/Core/event.js:13-16 | the table becomes `BindTable` of the old table |
| `Events.Registry.Unbind` | src/Core/event.js:18-20 | the table becomes `UnbindTable` of the old table |
| `Events.Registry.Fire` | src/Core/event.js:54-73 | the index loop makes exactly the invocations of `FireSpec` and returns its result: none and `undefined` when unbound; the single handler's own completion when there is one; every handler once, in order, with the same arguments and then `undefined` when there are several; a throw ends the loop and propagates |
| `Events.Registry.FireWait` | src/Core/event.js:22-52 | hands the driver a step function and returns exactly what `FireWaitSpec` says: nothing for a missing, `null` or empty list; otherwise handlers `0..n-1` in order up to and including the first that throws, and the loop's outcome |
| `Events.WaitStep` | src/Core/event.js:37-47 | step `i` invokes `ref[i]` with the shared arguments; its continuation answers `next` exactly when the call returned and `i < ref.length - 1`; a throw is the step's failure, carrying the exception |
| `Events.StepperKeepsProtocol` | src/Core/event.js:35-50 | the step function can run every index below `ref.length` and asks for a successor only below it, so the driver stops within `ref.length` steps |
| `Events.LoopRunsReachedSteps` | src/Core/event.js:35-50 | driven from `i = 0`, the loop's trace is the invocations of handlers `0..k-1`, where `k` is all of them or up to the first that throws, and the outcome is finished or aborted with that exception |
| `Scheduler.Loop` | src/Core/event.js:35-50 | the driver runs steps `0, 1, …` in order while each continuation answers `next`, records each step's effect, stops at the first step that does not, and aborts exactly when that step failed |
| `EventLaws.BindAllAppends` | src/Core/event.js:13-16 | successive binds accumulate in call order, duplicates included, after the list the name already had |
| `EventLaws.BindAllKeepsOthers` | src/Core/event.js:13-20 | binds under one name leave every other name's entry unchanged |
| `EventLaws.UnbindForgetsEarlierHandlers` | src/Core/event.js:14-19 | after `unbind` the name does not exist, and a following `bind` yields a list holding only the new handler |
| `EventLaws.ExistsNeverBound` | src/Core/event.js:9-20 | a name with no list keeps having none through any sequence of `bind` and `unbind` calls none of which binds it (an `unbind` of the name included) |
| `EventLaws.RegistryNeverBound` | src/Core/event.js:5-20 | on a registry built from `{}` by a history that never binds `name`, `Registry.Exists(name)` is false |
| `EventLaws.ExistsAsWritten` | src/Core/event.js:5-19 | as written, a name without an own entry exists exactly when it names a member inherited from `Object.prototype` and `__proto__` was never written (writing it removes the prototype) |
| `EventLaws.ExistsAsWrittenOnFreshTable` | src/Core/event.js:5-11 | as written, `exists('toString')` holds on a registry where nothing was bound |
| `EventLaws.ExistsAsWrittenAfterProtoUnbind` | src/Core/event.js:5-19 | as written, after `unbind('__proto__')` the table has no prototype and `exists('toString')` is false; an `unbind` of any other name leaves it true |
| `EventLaws.FireUnbound` | src/Core/event.js:62 | `fire` on an unbound name calls nothing and returns `undefined` |
| `EventLaws.FireSingleHandler` | src/Core/event.js:66-67 | with exactly one handler, `fire` calls it once and passes its return value or exception through |
| `EventLaws.FireManyHandlers` | src/Core/event.js:58-71 | with two or more handlers none of which throws, `fire` calls each exactly once in registration order with the same arguments and returns `undefined` |
| `EventLaws.FireStopsAtThrow` | src/Core/event.js:64-71 | when handler `k` is the first to throw, handlers after it are not called and the exception propagates |
| `EventLaws.FireWaitUnbound` | src/Core/event.js:30-34 | `fireWait` on a missing, `null` or empty list calls nothing and returns `undefined` |
| `EventLaws.FireWaitRunsAllInOrder` | src/Core/event.js:30-50 | when no handler throws, `fireWait` runs handlers `0..n-1` exactly once each in order and the loop finishes |
| `EventLaws.FireWaitCallsLikeFire` | src/Core/event.js:22-73 | both dispatchers make the same invocations in the same order |
| `EventLaws.FireWaitStopsAtThrow` | src/Core/event.js:37-48 | when handler `k` is the first to throw, `fireWait` runs handlers `0..k` and the loop aborts with that exception |
| `Format.PlaceholderShape` | src/Core/util.js:64 | a match of `{(\d+)}` at the front is `{`, a maximal non-empty digit run, then `}` |
| `Format.FormatString` | src/Core/util.js:62-68 | the global scan of `/{(\d+)}/`: each match is replaced by its argument when defined (its laws are the `Format` lemmas below) |
| `Format.FormatPlaceholder` | src/Core/util.js:62-68 | a leading `{n}` becomes argument `n` when it is defined and stays literal otherwise; the rest is formatted on its own |
| `Format.FormatReplacesEachPlaceholder` | src/Core/util.js:62-68 | a `{n}` anywhere is replaced independently of the text around it, and substituted text is not rescanned |
| `Format.FormatSplit` | src/Core/util.js:64 | formatting distributes over a split before a character that cannot extend or close a token |
| `Format.FormatWithoutPlaceholder` | src/Core/util.js:64 | a string with no `{digits}` match is returned unchanged |
| `Format.FormatWithoutArguments` | src/Core/util.js:64-66 | with no defined arguments every token stays literal, so the string is unchanged |
| `Format.CloseFrom` | src/Core/util.js:232 | the lazy `(.*?)}}` stops at a `}}` with no line terminator and no earlier `}}` before it, i.e. the first one, or fails |
| `Format.CloseFromFails` | src/Core/util.js:232 | the lazy scan fails only when a line terminator comes before every later `}}` |
| `Format.TemplateTokenLen` | src/Core/util.js:232 | the match of `{{(.*?)}}` at the front is at least four characters long, or there is none |
| `Format.MergeTemplateText` | src/Core/util.js:231-235 | the global scan of `/{{(.*?)}}/`: each match is replaced by the property when defined (its laws are `TemplateFillsProperty`, `TemplateWithoutTokens` and `TemplateWithEmptyObject`) |
| `Format.TemplateFillsProperty` | src/Core/util.js:232-235 | a `{{prop}}` token, where `prop` has no line terminator, no `}}` and no trailing `}`, becomes `obj[prop]` when that property is defined and stays literal otherwise |
| `Format.TemplateWithoutTokens` | src/Core/util.js:232 | a template without `{{` is returned unchanged |
| `Format.TemplateWithEmptyObject` | src/Core/util.js:232-235 | with no properties defined every token stays literal |
| `Util.IdSource.constructor` | src/Core/util.js:12 | the counter starts at 1 |
| `Util.IdSource.NextID` | src/Core/util.js:36-38 | `nextID()` returns the counter and leaves it one greater |
| `Util.FirstIds` | src/Core/util.js:36-38 | successive calls on a fresh counter return 1, 2, 3, each one greater than the previous |
| `Util.ExtendFalsy` | src/Core/util.js:76-86 | `extend` is a no-op returning `me` when either argument is falsy |
| `Util.ExtendSpec` | src/Core/util.js:76-86 | `extend(me, withthis)` throws only the strict-mode TypeError, and only for an object `withthis`; it returns a non-object `me` as it is, and an object `me` as an object |
| `Util.ExtendOnObjects` | src/Core/util.js:76-86 | on two objects: every key of `withthis` with a non-object value is set; keys absent from `withthis` are unchanged; object values merge recursively into existing keys; no other key appears |
| `Util.ExtendIdempotent` | src/Core/util.js:76-86 | extending a second time with the same object changes nothing more |
| `Util.JsObject.Extend` | src/Core/util.js:76-86 | on a throw, the keys before the failing key are merged, the failing key and the keys after it are untouched, and the loop stopped at that key; otherwise the in-place for-in loop returns `this`, leaves the object equal to the `Extend` specification, or returns the strict-mode TypeError exactly when that throws; keys absent from `withthis` are always unchanged |
| `Util.Partial` | src/Core/util.js:78-84 | keys not yet visited by the loop keep their original values |
| `Util.PartialStep` | src/Core/util.js:78-84 | one loop iteration updates `me` at the visited key alone, as the loop body does |
| `Util.ForEach` | src/Core/util.js:95-118 | the index loop makes exactly the calls of `Walk` and returns `obj`, or the exception of the call that threw |
| `Util.Walk` | src/Core/util.js:98-104 | every call is `(obj[k], k)` for an index holding an element; a walk that throws ends with the call that threw |
| `Util.WalkInOrder` | src/Core/util.js:98-104 | when no call throws, every call is `(obj[k], k)` for an index holding an element, in strictly increasing order |
| `Util.WalkVisitsAll` | src/Core/util.js:98-104 | when no call throws, every index holding an element is visited |
| `Util.WalkDense` | src/Core/util.js:98-104 | on a dense array the calls are exactly `(obj[k], k)` for `k = 0..length-1` |
| `Util.NoThrow` | src/Core/util.js:124-128 | `noThrow(f)` returns `f()` when it completes, `undefined` when it throws or is not callable, and `f` itself when `f` is falsy |
| `Util.JumpStart.constructor` | src/Core/jumpStart.js:25-27 | `suppressNextError` starts false and `guiAllowed` true |
| `Util.ErrorText` | src/Core/util.js:200-210 | the announced text is `msg.message \|\| msg`, formatted with the remaining arguments when it is a string; a truthy non-string `message` and a boolean, number or function `msg` are passed on as they are; `undefined`/`null` throw |
| `Util.ErrorSpec` | src/Core/util.js:198-229 | `error` returns normally only when the flag was set, returning `undefined` and clearing it; with the flag clear it always throws; the flag is never set by the call |
| `Util.Error` | src/Core/util.js:198-229 | the effects, the completion and the new flag are those of `ErrorSpec` |
| `Util.ErrorAnnouncesFirst` | src/Core/util.js:212-217 | the progress bar is hidden, the text logged and `on.error` fired first, before any `js.error` |
| `Util.ErrorUnsuppressed` | src/Core/util.js:219-226 | with the flag false and no handler throwing, `js.error` fires exactly once after `on.error` and the call throws `ERROR_HANDLED` |
| `Util.ErrorSuppressed` | src/Core/util.js:219-228 | with the flag true, `js.error` never fires, the call returns normally and the flag is false afterwards |
| `Util.ErrorFlagAfterwards` | src/Core/util.js:198-228 | the flag is left set exactly when it was set and the call threw before reaching it |
| `Util.DefaultTitle` | src/Core/util.js:164 | a truthy title is kept, a falsy one replaced by the default |
| `Util.Message` | src/Core/util.js:155-168 | without a GUI, no event fires and only a truthy callback is deferred; otherwise `js.message` fires with `(msg, callback, title \|\| 'Application Message')` and the call returns `undefined` unless a handler throws |
| `Util.Confirm` | src/Core/util.js:178-191 | the same as `message`, with `js.confirm`, the default title `'Application Confirmation'` and both captions passed on |
| `Style.Pattern` | src/Core/style.js:15 | a placeholder is `%group:key%` |
| `Style.MergeSpec` | src/Core/style.js:12-30 | `mergeSettings`: the colors group, then font, then images, each key replacing the first occurrence of its placeholder (its laws are the lemmas below) |
| `Style.ApplyGroup` | src/Core/style.js:14-17 | one group's loop yields `ReplaceGroup`: each key in turn replaces the first occurrence of its placeholder |
| `Style.MergeSettings` | src/Core/style.js:12-30 | the three loops yield `MergeSpec`: colors, then font, then images |
| `Style.SubstituteFirstOnly` | src/Core/style.js:15-16 | only the first occurrence of a placeholder is replaced; everything after it, a second occurrence included, is kept |
| `Style.ReplaceGroupAbsent` | src/Core/style.js:14-27 | a group none of whose placeholders occur leaves the value unchanged |
| `Style.MergeWithoutPlaceholders` | src/Core/style.js:12-30 | a value containing none of the placeholders of its settings is returned unchanged |
| `Style.MergeWithoutPercent` | src/Core/style.js:12-30 | a value without `%` is returned unchanged |
| `Style.ColorsBeforeFont` | src/Core/style.js:14-22 | for every color key `c`, font key `f` and value `v`: a color whose value is the placeholder of `f` is filled in again by the later font group, giving `v` |
| `Style.FontAfterColors` | src/Core/style.js:14-22 | for every `c`, `f` and `v` where the color placeholder of `c` does not occur in the font placeholder of `f`: a font whose value is that color placeholder stays literal, since colors already ran |
| `Style.AppendDeclarations` | src/Core/style.js:49-52 | an array-valued style appends one `styleName: v;` per element |
| `Style.AppendMediaDeclarations` | src/Core/style.js:55-57 | an `@media` style appends one `name: v;` per inner declaration |
| `Style.AddStyle` | src/Core/style.js:46-62 | the function given to the inner `forEach` extends `css` by a style's declarations (array-valued: one per element) and `othercss` by its `@media` block |
| `Style.StyleStep` | src/Core/style.js:46-62 | one more style extends the class block and the `@media` text by its own parts |
| `Style.ClassCss` | src/Core/style.js:40-66 | the text for one class: `className{body}` followed by the `@media` blocks (its laws are the `Style` lemmas below) |
| `Style.ClassText` | src/Core/style.js:40-66 | the loop over styles, each added by `AddStyle`, builds `className{declarations}` followed by the `@media` blocks, i.e. `ClassCss` |
| `Style.Load` | src/Core/style.js:34-70 | one text is appended per class, in order, each its `ClassCss` |
| `Style.DeclarationsSplit` | src/Core/style.js:50-52 | the declarations of an array-valued style follow the element order |
| `Style.DeclarationsEach` | src/Core/style.js:50-52 | an array-valued style yields `name: v;` for its first element, then for the rest, all under the same name |
| `Style.ClassBodySplit` | src/Core/style.js:46-62 | the class block follows the order of the class's styles |
| `Style.MediaTextSplit` | src/Core/style.js:53-58 | the `@media` blocks follow the order of the class's styles |
| `Style.MediaOutsideClass` | src/Core/style.js:53-64 | an `@media` style adds nothing inside the class block and adds `name{className{…}}` after its closing brace |
| `Style.ClassWithoutMedia` | src/Core/style.js:42-64 | a class without `@media` styles is exactly `className{declarations}` |
| `Style.LoadExample` | src/Core/style.js:40-66 | `{'.a': {color: '%colors:main%', '@media print': {top: '0'}}}` with `main = red` gives `.a{color: red;}@media print{.a{top: 0;}}` |

## Left out

- `src/Core/progress.js`, `src/Core/window.js` and the rest of `src/Core/jumpStart.js` are not part of this model. They are DOM styling, timers, the host window and a static configuration object. Only the two flags at `jumpStart.js:25-27` are modelled.
- The `$code` scheduler is not part of this model. It is an abstract driver that runs each step to completion. Suspension between steps, and handlers completing on a later turn, are not modelled.
- Handler re-entrancy is not modelled. A handler is a function of its arguments, so it cannot bind, unbind or set a flag during a dispatch. In the source:
  - Both dispatchers loop over the array captured as `ref` (`event.js:32`, `event.js:63`) and re-read `ref.length` on each step (`event.js:45`, `event.js:64`).
  - So a handler's `bind` under the name being dispatched appends to that array, and the dispatch goes on to call the new handler. For `fire` this happens only when the list had two or more handlers at the start, because with one it returns after the first call.
  - An `unbind` followed by a `bind` puts a new array in the table, which neither dispatch sees.
- Util.Error: the flag is taken as it was when `error` was called. The source reads `$js.suppressNextError` after firing `on.error` (`util.js:215-219`), so an `on.error` handler that sets the flag suppresses `js.error` there. The model does not capture this, since handlers cannot change state.
- The default handlers are modelled only as three handlers bound at init. Their `alert`, `confirm` and `innerHTML` are DOM effects.
- These DOM and host pieces of `util` are left out:
  - `html5Check`, `isMobileDisplay`, `addElement`;
  - the `$(template)` wrapping of `mergeTemplate`;
  - the internals of `browserProgress.hide` and `$log.error`, which appear only as effects in the trace.
- `noop` and `valueFn` are left out because they hold no logic.
- These parts of `util.forEach` are left out, because they depend on the engine's property order or on host objects:
  - the delegation to `obj.forEach`;
  - the for-in branches.

  Where the model walks an object (`extend`, `mergeSettings`, `load`), its keys come as a given sequence.
- Only the array branch of `util.forEach` is modelled. The array is taken as a value, a sequence whose holes are `None`, so an iterator that changes the array during the walk is not modelled.
- Numbers are unbounded integers. Floating point, the `uid` precision limit and JavaScript's string conversion of arguments are left out. Arguments to `formatString` and properties to `mergeTemplate` are given in their string form.
- The special `$` patterns of a replacement string (`$$`, `$&`, `` $` `` and `$'`) are not interpreted. With a string search value there are no captures, so `$1` stays literal in the source as in the model. The values they would affect are setting values inserted by `mergeSettings`.
- Util.JsObject.Extend: `me` has no inherited members, as for `Util.ExtendSpec` below. Nested objects are values, not shared references. Aliasing between nested objects is not modelled. When a nested merge throws part-way, the model keeps the nested object as it was before that key; the source keeps the writes already made inside it.
- Util.ExtendSpec: `me` has no inherited members. For an object-valued key of `withthis` that `me` has no own entry for, the source extends the member `me` inherits (`util.js:80`), while the model skips the key. So `extend({}, {constructor: {prototype: 1}})` throws a TypeError in the source, because it writes the read-only `Object.prototype` (`util.js:82`), and the model returns the object unchanged. Likewise `extend({}, JSON.parse('{"__proto__": {"x": 1}}'))` merges `x` into `Object.prototype` itself in the source, and the model records no effect. Also, a string `withthis`, whose for-in enumerates character indices, is treated as having no keys. Properties of functions, and index reads on a primitive string `me`, are not represented.
- Style.Load, Style.ClassText, Style.AddStyle: only well-formed class objects are accepted. Plain values never appear under an `@media` name, and nested objects appear only under one. The other combinations make the source append, over and over, characters of a string or `[object Object]`. Non-string style values are also not accepted; with settings present, `mergeSettings` would throw on them.
- Events.BindTable: the table has no inherited members. In the source it is a plain object, so `bind('toString', h)` finds the inherited function at `event.js:14`, keeps it, and throws a TypeError at `event.js:15` when it calls `.push` on it. The model gives `[h]`.
- Events.FireSpec: the table has no inherited members. In the source `fire('hasOwnProperty')` on a fresh registry sees a function of length 1 at `event.js:62-64`, reads `ref[0]` as `undefined`, and throws a TypeError at `event.js:67`. The model calls nothing and returns `undefined`.
- Events.FireWaitSpec: the table has no inherited members. In the source `fireWait('hasOwnProperty')` passes `event.js:30-34` in the same way, and its step throws a TypeError at `event.js:41`. The model runs nothing.
- Format.MergeTemplateText: the property object has no inherited members. In the source `{{toString}}` is replaced by the inherited function (`util.js:233`). The model keeps it literal when `toString` is not an own property.
- Style.MergeSettings: `settings` itself is always present. Each group is a key sequence, and an absent group is an empty one.

## Findings

| source | as written | input that shows it | evidently intended | confidence | as-written member | corrected member |
|---|---|---|---|---|---|---|
| src/Core/event.js:5-11 | the table is a plain object `{}`, so `exists(name)` reads inherited members of `Object.prototype` (the same members reach `bind`, `fire` and `fireWait`, under "Left out") | `$event.exists('toString')` on a registry where nothing was bound returns true | a name never bound does not exist | high, not executed | `EventLaws.ExistsAsWrittenOnFreshTable` | `EventLaws.RegistryNeverBound` |
