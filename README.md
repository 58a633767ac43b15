# dvorakjs reactive engine, modelled in Dafny

This project models the reactive core of the dvorakjs JSX template library:

- **Signals.** `useSignal` makes a value cell with an ordered subscriber queue. `isSignalGetter` recognises its getters.
- **Directives.** The `d-if` directive registry, and `bindDirective`/`bindIf`, which subscribe a component's show/hide toggle to a signal.
- **Build context.** The static `Context`: an id counter, the component whose function is running (`current`), and the stack of components being built (`parent`).
- **Lifecycle hooks.** `onload`/`unload` register callbacks on the running component.
- **Render nodes.** `RawElement` and `Component`:
  - their `build` and `init`;
  - `render`/`unrender`;
  - the placeholder swap of `directiveIf`/`show`/`hide`;
  - the free functions `bindAttributes`, `bindEvents`, `bindReactivityChild` and `getAttributeValue`.

The DOM is replaced by an abstract host tree (`HostTree.Host`). Each node has a kind, an optional parent and an ordered child sequence. It offers the calls the library makes:

- `createElement`/`createTextNode`/`createComment`;
- `append`, `appendChild`, `after`, `insertBefore`, `remove`, `replaceChild`;
- `setAttribute`, `addEventListener`.

Its invariant `Valid` says that parent links and child sequences agree and that no node occurs twice.

Closures are data. A subscriber is a `Callback`:

- `AttrUpdate(el, key)` sets an attribute;
- `IfToggle(node)` calls `render`/`unrender` according to the value's truthiness;
- `ChildReplace(slot)` swaps a signal child's text node;
- `User(id)` is any other function.

A `Runtime` records what the callbacks did:

- `fired`: every callback called;
- `toggles`: every `render` or `unrender`;
- `pending`: every hook handed to `setTimeout`, which never runs.

A component function is a `Body`. It holds the `onload`/`unload` calls it makes and the render node it returns.

Files:

- `wrappers.dfy`: `Option`/`Outcome`.
- `seqs.dfy`: sequence algebra for the placeholder swap.
- `host.dfy`: the host tree.
- `context.dfy`: `Context`.
- `base.dfy`: `BaseComponent`'s show/hide.
- `dvorak.dfy`: signals, directives, hooks, attributes and the two render-node classes. They refer to each other, so they share one module.

## Model

| member | source | states |
|---|---|---|
| Dvorak.Signal.constructor | src/dvorak/single.ts:11-15 | a new signal holds the default value and has an empty subscriber queue |
| Dvorak.Signal.Read | src/dvorak/single.ts:26 | the getter returns the current value |
| Dvorak.Signal.Subscribe | src/dvorak/single.ts:27-29 | the subscriber goes at the end of the queue; the value is unchanged and nothing is called |
| Dvorak.Signal.Write | src/dvorak/single.ts:17-24 | the value becomes `v` before any subscriber runs; the queue as it was at the call runs in order, each callback exactly once (`fired` grows by exactly `subs`); the `render`/`unrender` log grows by one toggle per `d-if` subscriber, with the truthiness of `v`; attributes change exactly as `AttrWrites` of the queue says; if a callback throws, exactly a nonempty prefix of the queue ran; an empty queue changes only the value; a queue of attribute and user callbacks only always succeeds; a queue that replaces no text slot and whose `d-if` components each show exactly one of content and placeholder, with distinct components sharing no node, always succeeds and leaves every one of them shown for a truthy value and hidden otherwise |
| Dvorak.SignalScenario | src/single.test.ts:3-19 | a signal made with 0 reads 0; after writing 1 it reads 1 and nothing was called; a subscriber added afterwards is called by the next write and gets no replay of the earlier one |
| Dvorak.Notify | src/dvorak/single.ts:20-22 | one turn of the subscriber loop: the i-th callback is logged after the first i and its effects are added to theirs; attribute and user callbacks succeed and move no node; a `d-if` callback moves only its component's content and placeholder, and one that finds exactly one of them attached succeeds and leaves the component shown for a truthy value and hidden otherwise |
| Dvorak.NotifySeparate | src/dvorak/single.ts:20-22 | the same turn in a queue whose toggled components share no node: if every component was shown or hidden and the first i as the value says, the turn succeeds and the same holds for the first i + 1 |
| Dvorak.RunQueue | src/dvorak/single.ts:20-22 | the `forEach` over a nonempty queue: on success every callback ran once in order, with the logs and attributes as the queue says; on a throw exactly a nonempty prefix ran; a queue of attribute and user callbacks succeeds; a separate queue succeeds and ends with every toggled component the way the value says |
| Dvorak.SettledStep | src/dvorak/single.ts:20-22 | in a queue whose toggled components share no node, if each is shown or hidden and the first `i` are as `show` says, then after subscriber `i` toggles its own component to `show`, moving no other node, the same holds for the first `i + 1` |
| Dvorak.Dispatch | src/dvorak/directive.ts:26-32 | calling one subscriber: `IfToggle` logs one `render` for a truthy value and one `unrender` otherwise, and leaves exactly one of content and placeholder attached; `AttrUpdate` sets the attribute to the value just written; `AttrUpdate` and `User` do not touch the tree; `IfToggle` moves no node but its component's content and placeholder |
| Dvorak.TogglesOfQueue | src/dvorak/directive.ts:26-32 | a write logs a toggle for a node iff that node's `d-if` subscriber is in the queue, and every toggle uses the written value's truthiness |
| Dvorak.AttrWritesUpdated | src/dvorak/component.ts:255-257 | after a write, every attribute bound to the signal holds the written value |
| Dvorak.AttrWritesKept | src/dvorak/component.ts:255-257 | a write leaves every attribute that is not bound to the signal unchanged |
| Dvorak.IsSignalGetter | src/dvorak/single.ts:35-42 | holds exactly for signal getters, which are all functions; strings and event handlers are not getters |
| Dvorak.IsDefaultDirective | src/dvorak/directive.ts:4-8 | a key is a built-in directive iff it is `d-if` |
| Dvorak.BindDirective | src/dvorak/directive.ts:10-23 | an unknown key or a non-function value leaves the signal unchanged and adds no subscriber; `d-if` with a getter adds exactly one toggle subscriber and keeps the value; `d-if` with an event handler throws, because a handler has no observe method |
| Dvorak.BindIf | src/dvorak/directive.ts:25-34 | subscribing to a getter appends one `IfToggle` of the node and calls neither `render` nor `unrender`; a value without the observe key fails |
| BuildContext.Context.constructor | src/dvorak/context.ts:3-6 | the counter starts at 0, `current` is empty and the `parent` stack is empty |
| BuildContext.Context.GetId | src/dvorak/context.ts:7-9 | the result is the old counter plus one and becomes the counter; it was never issued before; nothing else changes |
| BuildContext.Context.IssuedDistinct | src/dvorak/context.ts:6-8 | ids issued so far strictly increase, lie between 1 and the counter, and so never repeat |
| BuildContext.FirstIds | src/dvorak/context.ts:7-9 | on a fresh context the first two ids are 1 and 2 |
| BuildContext.Context.Push | src/dvorak/component.ts:175 | the component goes on top of the build stack |
| BuildContext.Context.Pop | src/dvorak/component.ts:184 | the top of the build stack is removed; popping an empty stack leaves it empty |
| Dvorak.Onload | src/dvorak/lifetime.ts:3-7 | with a running component its `runOnload` becomes the callback; only that one field of that one component may change, so `runUnload` is never touched and nothing changes without a running component |
| Dvorak.Unload | src/dvorak/lifetime.ts:9-13 | likewise for `runUnload` |
| Dvorak.LastHookNone | src/dvorak/lifetime.ts:5 | a component function that registers no hook of a kind leaves that hook as it was |
| Dvorak.LastHookLast | src/dvorak/lifetime.ts:5 | when a component function registers a hook several times, the last registration wins |
| Dvorak.Component.RunHooks | src/dvorak/lifetime.ts:3-13 | running the component function's hook calls sets `runOnload` and `runUnload` to the last callback registered for each |
| BaseComponent.Show | src/dvorak/component.ts:37-48 | with the first node attached it does nothing; with first node and placeholder both detached it throws and changes nothing; otherwise the nodes take the placeholder's place in order and the placeholder is detached, and nothing else moves; from exactly one of the two attached it ends with the content shown |
| BaseComponent.Hide | src/dvorak/component.ts:50-61 | with the first node detached it does nothing; otherwise the placeholder is inserted where the first node was and every node is removed, and no other node changes attachment; from exactly one of the two attached it ends with the placeholder shown |
| BaseComponent.DirectiveIf | src/dvorak/component.ts:29-35 | `true` shows and `false` hides; asking for the current state is a no-op; hiding never fails; it keeps exactly one of content and placeholder attached |
| BaseComponent.HideThenShow | src/dvorak/component.ts:46-47 | hiding and then showing restores the parent's child sequence exactly and ends with the content shown |
| Seqs.HideShowRoundTrip | src/dvorak/component.ts:55-60 | on child sequences, showing after hiding gives back the original sequence |
| Dvorak.GetAttributeValueSpec | src/dvorak/component.ts:313-324 | the lookup is empty iff no attribute has the key; otherwise it is the value of the first attribute with the key |
| Dvorak.GetAttributeValueUnique | src/dvorak/component.ts:313-324 | when keys are distinct, looking up an attribute's key gives that attribute's value |
| Dvorak.IfDecisionSpec | src/dvorak/component.ts:108-113 | the `d-if` decision is "not callable" iff the first `d-if` attribute holds a string literal; without `d-if` the decision is to show the content |
| Dvorak.MountOutcome | src/dvorak/component.ts:113-119 | mounting succeeds iff the `d-if` value is callable and a host was given; a string `d-if` throws |
| Dvorak.EventOf | src/dvorak/component.ts:262-273 | at most one listener; none unless the key is `onClick` or `onChange`; `onClick` gives a click listener and `onChange` a change listener, both on the element |
| Dvorak.BindEvents | src/dvorak/component.ts:262-285 | the listener list grows by exactly the one `click`/`change` listener for the key, or by nothing |
| Dvorak.BindAttributes | src/dvorak/component.ts:237-260 | strings are set as attributes and nothing else is set; a function under an event key adds one listener; each signal gains one attribute-update subscriber per attribute bound to it |
| Dvorak.BindAttribute | src/dvorak/component.ts:242-258 | one attribute: sets it if it is a string, adds its listener if it is a function, and extends the subscriptions accordingly |
| Dvorak.SetLiteralsEffect | src/dvorak/component.ts:252-257 | after binding, every string attribute is set; a key whose values are all getters or handlers is not set at bind time |
| Dvorak.AttrSubsEffect | src/dvorak/component.ts:254-257 | the subscribers added to a signal are attribute updates of the element for keys bound to that signal, one per such attribute |
| Dvorak.NoAttrSubs | src/dvorak/component.ts:254-257 | a signal not used by any attribute gains no subscriber |
| Dvorak.BindReactivityChild | src/dvorak/component.ts:287-311 | one new text node holding the signal's current value is appended to the parent element, and the signal gains one child-replace subscriber remembering that node |
| Dvorak.ChildSlot.Refresh | src/dvorak/component.ts:294-298 | a new text node with the written value replaces the previous slot node at the same position, and becomes the slot's node; if the previous node is no longer a child it throws and the tree is unchanged |
| Dvorak.RawElement.constructor | src/dvorak/component.ts:19-21 | a new node has an empty node list, no host and a new detached comment as its placeholder |
| Dvorak.RawElement.LoadAt | src/dvorak/component.ts:75-78 | the host is set |
| Dvorak.RawElement.MakeElement | src/dvorak/component.ts:85-88 | a new detached element of the tag is pushed on the node list and its attributes are bound |
| Dvorak.RawElement.Build | src/dvorak/component.ts:84-102 | each call pushes one new element, even when the list is not empty; only nested components are rendered; on success the build stack is as before and only the new subtree and nested placeholders were attached |
| Dvorak.RawElement.MountChildren | src/dvorak/component.ts:90-99 | the children are mounted in order under the element; only nested components are rendered; on success the stack is as before and only new nodes moved |
| Dvorak.RawElement.MountKid | src/dvorak/component.ts:91-98 | one child: a signal child gets a slot, a node is loaded and initialised, any other value becomes a text node |
| Dvorak.MountChild | src/dvorak/component.ts:94 | a nested node is loaded at the element and initialised; only its own components are rendered |
| Dvorak.BuildChild | src/dvorak/component.ts:178-181 | building the node a component function returns; only its components are rendered |
| Dvorak.RawElement.Init | src/dvorak/component.ts:104-120 | a node already built is not rebuilt and is only mounted: its state, the build stack, the signals, the render log and the host's node kinds, attributes and listeners are unchanged, a failed mount changes nothing, and a mount moves only the element (appended to the host) or the placeholder (made the host's child); the first build yields exactly one element; on success the nodes, or the placeholder alone, end the host's children; from a detached placeholder exactly one of the two ends up attached, the content iff `d-if` is absent or truthy |
| Dvorak.RawElement.FirstInit | src/dvorak/component.ts:105-119 | `init` of a node not yet built: one element, then mounted as above |
| Dvorak.RawElement.FirstAttach | src/dvorak/component.ts:108-119 | mounting right after the first build keeps content and placeholder exclusive |
| Dvorak.RawElement.Attach | src/dvorak/component.ts:108-119 | the outcome is decided by the `d-if` value and the host; a failure changes nothing; truthy or absent appends the nodes; falsy appends only the placeholder and calls no `unrender` |
| Dvorak.Component.constructor | src/dvorak/component.ts:133-147 | a new comment becomes the placeholder, then the next id from the context, never issued before; no parent, no children, no hooks, no host |
| Dvorak.Component.LoadAt | src/dvorak/component.ts:153-156 | the host is set |
| Dvorak.Component.AddChildComponent | src/dvorak/component.ts:161-163 | the child is appended to the child-component list |
| Dvorak.Component.Enter | src/dvorak/component.ts:170-177 | with a non-empty stack the stack top becomes the parent and gets this component appended once; then it is pushed and becomes `current`; its hook calls run |
| Dvorak.Component.Leave | src/dvorak/component.ts:178-198 | the node list is the returned node's list; `current` is cleared, not restored; the stack is popped; each signal gains exactly the `d-if` subscribers of the attributes |
| Dvorak.Component.BindDirectives | src/dvorak/component.ts:186-198 | each signal gains one toggle subscriber per `d-if` attribute whose value is its getter, and nothing else |
| Dvorak.DirSubsOfRecord | src/dvorak/component.ts:186-198 | with distinct keys a component subscribes exactly once, to the signal its `d-if` reads, and to no other signal |
| Dvorak.Component.Build | src/dvorak/component.ts:165-201 | a second call changes nothing: the component, the host, the context, the runtime, the subtree's nodes and signals and the top of the stack are unchanged; a first call links parent and child as `Enter` says, restores the build stack, clears `current`, subscribes `d-if`, and renders only nested components |
| Dvorak.Component.Construct | src/dvorak/component.ts:170-198 | the first build's steps after the idempotence guard, with the same promises |
| Dvorak.Component.BuildBody | src/dvorak/component.ts:178-181 | the returned node is built with this component as `current` |
| Dvorak.Component.Render | src/dvorak/component.ts:203-208 | logs one `render`, shows the content, and queues `runOnload` only when it is defined, never calling it; a throwing show queues nothing |
| Dvorak.Component.Unrender | src/dvorak/component.ts:210-215 | logs one `unrender`, hides the content, and queues `runUnload` only when it is defined |
| Dvorak.Component.Init | src/dvorak/component.ts:217-234 | a component already built is only mounted: its state, the build stack, the signals, the subtree, the fired log and the host's node kinds, attributes and listeners are unchanged, a failed mount changes nothing, the shown path appends the content, logs one `render` and defers `runOnload`, and the hidden path makes the placeholder the host's child and changes no log; the first build yields one element; on success the nodes or the placeholder end the host's children; for a first mount from a detached placeholder, exactly one of content and placeholder ends attached, the content iff `d-if` is absent or truthy |
| Dvorak.Component.FirstInit | src/dvorak/component.ts:218-233 | `init` of a component not yet built |
| Dvorak.Component.FirstAttach | src/dvorak/component.ts:222-233 | mounting right after the first build keeps content and placeholder exclusive |
| Dvorak.Component.Attach | src/dvorak/component.ts:222-233 | the outcome is decided by the `d-if` value and the host; truthy or absent appends the nodes and renders; falsy appends only the placeholder and does not unrender |
| Dvorak.Component.Reveal | src/dvorak/component.ts:228-229 | the nodes end the host's children, then one `render` is logged and `runOnload` is queued |
| Dvorak.Component.RenderAttached | src/dvorak/component.ts:229 | `render` right after `append`: the tree is unchanged, one `render` is logged and `runOnload` is queued |
| HostTree.Truthy | src/dvorak/component.ts:113 | a value is truthy iff it is not 0, the empty string or false |
| HostTree.Host.CreateElement | src/dvorak/component.ts:85 | a new, detached element node with the next id |
| HostTree.Host.CreateText | src/dvorak/component.ts:96 | a new, detached text node holding the value |
| HostTree.Host.CreateComment | src/dvorak/component.ts:21 | a new, detached comment node |
| HostTree.Host.Create | src/dvorak/component.ts:306 | a new, detached node of the given kind, with no children |
| HostTree.Host.ChildOf | src/dvorak/component.ts:38 | a node is among p's children iff its parent is p |
| HostTree.Host.Remove | src/dvorak/component.ts:47 | the node loses its parent and leaves every child sequence; nothing else moves |
| HostTree.Host.RemoveEach | src/dvorak/component.ts:58-60 | every node of the list is detached; all other child sequences keep their order |
| HostTree.Host.InsertAt | src/dvorak/component.ts:56 | a detached node is inserted at the given position; other parents are unchanged |
| HostTree.Host.AppendChild | src/dvorak/component.ts:117 | the node moves to the end of the parent's children |
| HostTree.Host.Append | src/dvorak/component.ts:114 | the nodes, in order, end the parent's children after being taken out of wherever they were; other nodes keep their attachment |
| HostTree.Host.InsertBefore | src/dvorak/component.ts:56 | throws when the reference is not a child; otherwise the node ends up right before the reference |
| HostTree.Host.After | src/dvorak/component.ts:46 | a detached reference does nothing; otherwise the nodes come right after it, in order |
| HostTree.Host.InsertRun | src/dvorak/component.ts:46 | detached nodes are inserted as one run at a position; nothing else moves |
| HostTree.Host.ReplaceChild | src/dvorak/component.ts:296 | throws when the old node is not a child; replacing a node with itself does nothing; otherwise the new node takes the old one's position and the old one is detached |
| HostTree.Host.SetAttribute | src/dvorak/component.ts:253 | exactly that attribute of that element is set |
| HostTree.Host.AddEventListener | src/dvorak/component.ts:276-283 | exactly one listener is recorded |
| Dvorak.AppendList | src/dvorak/component.ts:228 | `append` of a node list: the list ends the host's children, and only its nodes change attachment |
| Dvorak.AppendOne | src/dvorak/component.ts:231 | `appendChild` of the placeholder: it ends the host's children, its parent becomes the host, and no other node changes attachment |
| Dvorak.ExclusiveOne | src/dvorak/component.ts:37-61 | for a single-node list, shown means the node is attached and the placeholder is not, and hidden means the opposite |

## Left out

- The browser DOM is the abstract host tree above. A `Host` node's identity is its number, so text nodes, elements and comments are kinds of one node type.
- Host methods require nodes to be distinct where a list is inserted (`append`, `after`). The DOM's handling of a node passed twice is not modelled.
- `HTMLElement` values held by signals (component.ts:303) are not modelled. A signal's value is a number, a string or a boolean, and a signal child always renders as a text node.
- JavaScript coercions are not modelled: `child + ""` and `createTextNode(value)` keep the value itself. Truthiness is `HostTree.Truthy` on the three value kinds, and `d-if` literals count as strings.
- Listener bodies and browser event dispatch are not modelled. Only the registration of a `click` or `change` listener is recorded.
- `setTimeout` is a FIFO `pending` queue in `Runtime` that is never run. The event loop is not modelled.
- User callbacks (`User(id)`) have no effect beyond being called.
- `Dvorak.Signal.Write`: states only that the hooks queued by a write extend the old queue. The hook each `d-if` subscriber queues is stated per subscriber by `Dvorak.Notify`, `Dvorak.Dispatch` and `Dvorak.Component.Render`.
- Two `bindAttributes` cases are not modelled:
  - the directive call at component.ts:247. `this` inside that free function is `undefined`, not the element. The source still queues a `bindIf` subscriber on the signal (directive.ts:25-33), and that subscriber calls `render` or `unrender` on `undefined`. So every later write to that signal throws there, before the element's own attribute subscriber runs. The model queues only the attribute subscriber;
  - a `null` or non-object attribute record, which is an empty attribute sequence here.
- Attributes are a sequence of key/value pairs with distinct keys, as object entries are.
- A component function is a `Body` whose result is constructed before `build` runs. The source constructs it while the function runs, so the ids of nested components are drawn in a different order.
- `build` and `init` are modelled for a render tree that has not been built yet and whose subtrees share no node, as a JSX expression produces:
  - reusing a node in two places of a tree is not covered;
  - building a tree a second time is covered only through the `nodeList` guard of `Component.build`.
- `Component.isRendered` is never set by the source and is not modelled.
- `RawElement.render`/`unrender` have empty bodies and are not modelled.
- `src/dvorak/index.ts` (`renderRootComponent`, `createFragment`), `src/index.tsx`, `webpack.config.js` and `jest.config.js` are not part of this model. They are a DOM wrapper, a demo and build tooling.
- Everything is single-threaded and synchronous, so concurrency does not arise.
