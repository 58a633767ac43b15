/** The reactive engine: signals and their subscriber queues, the `d-if`
    directive, the lifecycle hooks, and the two kinds of render node
    (`RawElement` for a host element, `Component` for a component function)
    with their build, mount, render and unrender steps. */
module Dvorak {
  import opened Wrappers
  import opened Seqs
  import opened HostTree
  import opened BuildContext
  import opened BaseComponent

  /** A function handed to `onload` or `unload`, known by its identity. */
  type Hook = nat

  /** An attribute value: a string, a signal getter, or another function
      (an event handler; `ret` is what it returns when called). */
  datatype AttrValue =
    | Literal(s: string)
    | Getter(sig: Signal)
    | Handler(fn: nat, ret: Value)

  datatype Attr = Attr(key: string, value: AttrValue)

  /** The functions that end up on a signal's queue: one kind per closure
      the library creates, and one for a function a user subscribes. Every
      closure reads the signal whose queue it is on, so that signal is not
      stored in it. */
  datatype Callback =
    | AttrUpdate(el: NodeId, key: string)
    | IfToggle(node: Component)
    | ChildReplace(slot: ChildSlot)
    | User(fn: nat)

  /** One call of `render` (`show` true) or `unrender` on a component. */
  datatype Toggle = Toggle(node: Component, show: bool)

  datatype RenderNode = Raw(e: RawElement) | Comp(c: Component)

  /** A child of a host element: a signal getter, a render node, or any
      other value, which becomes a text node. */
  datatype Child = Reactive(sig: Signal) | Nested(node: RenderNode) | Static(v: Value)

  datatype HookCall = OnloadCall(cb: Hook) | UnloadCall(cb: Hook)

  /** What a component function does when it is called: the `onload` and
      `unload` calls it makes, in order, and the render node it returns. */
  datatype Body = Body(hooks: seq<HookCall>, result: RenderNode)

  /** How `init` treats a node's `d-if` attribute: no attribute or a truthy
      call shows the content, a falsy call shows the placeholder, and a
      value that is not a function cannot be called. */
  datatype Decision = ShowContent | ShowPlaceholder | NotCallable

  // ---------------------------------------------------------------------
  // Signal getters and directives

  /** `typeof value === "function"`: getters and handlers are functions. */
  predicate IsFunction(v: AttrValue) {
    !v.Literal?
  }

  /** `isSignalGetter(value)`: a function that also carries the observe
      method, which only the getters made by `useSignal` have. */
  function IsSignalGetter(v: AttrValue): (r: bool)
    ensures r ==> IsFunction(v)
    ensures r <==> v.Getter?
  {
    IsFunction(v) && v.Getter?
  }

  /** The registered directive names. */
  const Directives: set<string> := {"d-if"}

  /** `isDefaultDirectives(key)`. */
  function IsDefaultDirective(key: string): (r: bool)
    ensures r <==> key == "d-if"
  {
    key in Directives
  }

  // ---------------------------------------------------------------------
  // Attributes

  /** The attributes are a record: no key appears twice. */
  predicate UniqueKeys(attrs: seq<Attr>) {
    forall i, j :: 0 <= i < j < |attrs| ==> attrs[i].key != attrs[j].key
  }

  /** The signals whose getters are attribute values. */
  ghost function AttrSignals(attrs: seq<Attr>): set<Signal> {
    set i | 0 <= i < |attrs| && attrs[i].value.Getter? :: attrs[i].value.sig
  }

  /** `getAttributeValue(attributes, key)`: the value of the first entry
      with that key, or nothing. An absent attribute record is the empty
      sequence. */
  function GetAttributeValue(attrs: seq<Attr>, key: string): Option<AttrValue> {
    if attrs == [] then None
    else if attrs[0].key == key then Some(attrs[0].value)
    else GetAttributeValue(attrs[1..], key)
  }

  /** The lookup finds nothing exactly when no entry has the key, and
      otherwise the value of the first entry that has it. */
  lemma {:induction false} GetAttributeValueSpec(attrs: seq<Attr>, key: string)
    ensures GetAttributeValue(attrs, key).None? <==> forall i :: 0 <= i < |attrs| ==> attrs[i].key != key
    ensures GetAttributeValue(attrs, key).Some? ==>
      exists i :: 0 <= i < |attrs| && attrs[i] == Attr(key, GetAttributeValue(attrs, key).value)
                  && forall j :: 0 <= j < i ==> attrs[j].key != key
  {
    if attrs != [] && attrs[0].key != key {
      var rest := attrs[1..];
      GetAttributeValueSpec(rest, key);
      forall i | 0 <= i < |rest| ensures rest[i] == attrs[i + 1] { }
      if GetAttributeValue(rest, key).Some? {
        var i :| 0 <= i < |rest| && rest[i] == Attr(key, GetAttributeValue(rest, key).value)
                 && forall j :: 0 <= j < i ==> rest[j].key != key;
        assert attrs[i + 1] == Attr(key, GetAttributeValue(attrs, key).value);
        assert forall j :: 0 <= j < i + 1 ==> attrs[j].key != key by {
          forall j | 0 <= j < i + 1 ensures attrs[j].key != key {
            if j > 0 { assert attrs[j] == rest[j - 1]; }
          }
        }
      } else {
        assert forall i :: 0 <= i < |attrs| ==> attrs[i].key != key by {
          forall i | 0 <= i < |attrs| ensures attrs[i].key != key {
            if i > 0 { assert attrs[i] == rest[i - 1]; }
          }
        }
      }
    }
  }

  /** In a record, the value found for a key is the value of the one entry
      with that key. */
  lemma {:induction false} GetAttributeValueUnique(attrs: seq<Attr>, i: nat)
    requires UniqueKeys(attrs) && i < |attrs|
    ensures GetAttributeValue(attrs, attrs[i].key) == Some(attrs[i].value)
  {
    if i > 0 {
      assert UniqueKeys(attrs[1..]) by {
        forall a, b | 0 <= a < b < |attrs[1..]| ensures attrs[1..][a].key != attrs[1..][b].key {
          assert attrs[1..][a] == attrs[a + 1] && attrs[1..][b] == attrs[b + 1];
        }
      }
      assert attrs[0].key != attrs[i].key;
      GetAttributeValueUnique(attrs[1..], i - 1);
      assert attrs[1..][i - 1] == attrs[i];
    }
  }

  /** What `init` does with the `d-if` attribute: the getter or handler is
      called and its result tested for truthiness; a string value cannot
      be called. */
  function IfDecision(attrs: seq<Attr>): Decision
    reads AttrSignals(attrs)
  {
    match GetAttributeValue(attrs, "d-if")
    case None => ShowContent
    case Some(v) =>
      GetAttributeValueSpec(attrs, "d-if");
      assert v.Getter? ==> v.sig in AttrSignals(attrs);
      match v
      case Literal(_) => NotCallable
      case Getter(s) => if Truthy(s.value) then ShowContent else ShowPlaceholder
      case Handler(_, ret) => if Truthy(ret) then ShowContent else ShowPlaceholder
  }

  /** `init` cannot call `d-if` exactly when the attribute is present and
      its value is a string; without the attribute the content shows. */
  lemma IfDecisionSpec(attrs: seq<Attr>)
    ensures IfDecision(attrs) == NotCallable <==>
      exists i :: 0 <= i < |attrs| && attrs[i].key == "d-if" && attrs[i].value.Literal?
                  && forall j :: 0 <= j < i ==> attrs[j].key != "d-if"
    ensures (forall i :: 0 <= i < |attrs| ==> attrs[i].key != "d-if") ==> IfDecision(attrs) == ShowContent
  {
    GetAttributeValueSpec(attrs, "d-if");
  }

  /** The listener `bindEvents` registers for a key: `onClick` and
      `onChange` give one, any other key none. */
  function EventOf(el: NodeId, key: string): (ls: seq<Listener>)
    ensures |ls| <= 1
    ensures ls == [] <==> key != "onClick" && key != "onChange"
    ensures key == "onClick" ==> ls == [Listener(el, Click)]
    ensures key == "onChange" ==> ls == [Listener(el, Change)]
  {
    if key == "onClick" then [Listener(el, Click)]
    else if key == "onChange" then [Listener(el, Change)]
    else []
  }

  /** The listeners `bindAttributes` registers, in attribute order: one per
      function value under an event key. */
  function Listeners(el: NodeId, attrs: seq<Attr>): seq<Listener> {
    if attrs == [] then []
    else
      var a := attrs[|attrs| - 1];
      Listeners(el, attrs[..|attrs| - 1]) + (if IsFunction(a.value) then EventOf(el, a.key) else [])
  }

  /** The host attributes after `bindAttributes` has set every string
      value, in attribute order. */
  function SetLiterals(m: map<(NodeId, string), Value>, el: NodeId, attrs: seq<Attr>): map<(NodeId, string), Value> {
    if attrs == [] then m
    else
      var a := attrs[|attrs| - 1];
      var m' := SetLiterals(m, el, attrs[..|attrs| - 1]);
      if a.value.Literal? then m'[(el, a.key) := Str(a.value.s)] else m'
  }

  /** The subscribers `bindAttributes` queues on `s`: one attribute update
      per attribute whose value is the getter of `s`. */
  function AttrSubs(el: NodeId, attrs: seq<Attr>, s: Signal): seq<Callback> {
    if attrs == [] then []
    else
      var a := attrs[|attrs| - 1];
      AttrSubs(el, attrs[..|attrs| - 1], s) + (if a.value == Getter(s) then [AttrUpdate(el, a.key)] else [])
  }

  /** A prefix of a record is a record. */
  lemma UniquePrefix(attrs: seq<Attr>, n: nat)
    requires UniqueKeys(attrs) && n <= |attrs|
    ensures UniqueKeys(attrs[..n])
  {
    forall a, b | 0 <= a < b < n ensures attrs[..n][a].key != attrs[..n][b].key {
      assert attrs[..n][a] == attrs[a] && attrs[..n][b] == attrs[b];
    }
  }

  /** Binding a record of attributes sets exactly its string values: a
      string value is the host attribute afterwards, and a key with no
      string value (a signal, a handler, or no entry at all) keeps what it
      had, so a signal-valued attribute is not set at bind time. */
  lemma {:induction false} SetLiteralsEffect(m: map<(NodeId, string), Value>, el: NodeId, attrs: seq<Attr>)
    requires UniqueKeys(attrs)
    ensures forall i :: 0 <= i < |attrs| && attrs[i].value.Literal? ==>
      (el, attrs[i].key) in SetLiterals(m, el, attrs) && SetLiterals(m, el, attrs)[(el, attrs[i].key)] == Str(attrs[i].value.s)
    ensures forall k: (NodeId, string) :: (k.0 != el || forall i :: 0 <= i < |attrs| && attrs[i].key == k.1 ==> !attrs[i].value.Literal?) ==>
      (k in SetLiterals(m, el, attrs) <==> k in m) && (k in m ==> SetLiterals(m, el, attrs)[k] == m[k])
  {
    if attrs != [] {
      var n := |attrs| - 1;
      var front := attrs[..n];
      UniquePrefix(attrs, n);
      SetLiteralsEffect(m, el, front);
      forall i | 0 <= i < n ensures front[i] == attrs[i] && attrs[i].key != attrs[n].key { }
    }
  }

  /** The updates `bindAttributes` queues on `s` are exactly one per
      attribute holding the getter of `s`, each for that attribute's key. */
  lemma {:induction false} AttrSubsEffect(el: NodeId, attrs: seq<Attr>, s: Signal)
    ensures forall cb :: cb in AttrSubs(el, attrs, s) ==>
      cb.AttrUpdate? && cb.el == el && exists i :: 0 <= i < |attrs| && attrs[i] == Attr(cb.key, Getter(s))
    ensures forall i :: 0 <= i < |attrs| && attrs[i].value == Getter(s) ==> AttrUpdate(el, attrs[i].key) in AttrSubs(el, attrs, s)
  {
    if attrs != [] {
      var n := |attrs| - 1;
      var front := attrs[..n];
      AttrSubsEffect(el, front, s);
      forall i | 0 <= i < n ensures front[i] == attrs[i] { }
    }
  }

  /** A signal no attribute holds gets no attribute subscriber. */
  lemma {:induction false} NoAttrSubs(el: NodeId, attrs: seq<Attr>, s: Signal)
    requires s !in AttrSignals(attrs)
    ensures AttrSubs(el, attrs, s) == []
  {
    if attrs != [] {
      var n := |attrs| - 1;
      assert attrs[n].value.Getter? ==> attrs[n].value.sig in AttrSignals(attrs);
      forall i | 0 <= i < n && attrs[..n][i].value.Getter? ensures attrs[..n][i].value.sig in AttrSignals(attrs) {
        assert attrs[..n][i] == attrs[i];
      }
      NoAttrSubs(el, attrs[..n], s);
    }
  }

  // ---------------------------------------------------------------------
  // Signals

  /** The setTimeout queue and two observation logs: the subscribers a
      write has called, and the `render`/`unrender` calls made. */
  class Runtime {
    /** Hooks handed to `setTimeout(cb, 0)`, oldest first; the model never
        runs them. */
    var pending: seq<Hook>
    var fired: seq<Callback>
    var toggles: seq<Toggle>

    constructor ()
      ensures pending == [] && fired == [] && toggles == []
    {
      pending, fired, toggles := [], [], [];
    }
  }

  /** The signal cell made by `useSignal`: the current value and the queue
      of subscribers. */
  class Signal {
    var value: Value
    var subs: seq<Callback>

    /** `useSignal(v)`: a cell holding `v` whose queue is empty. */
    constructor (v: Value)
      ensures value == v && subs == []
    {
      value, subs := v, [];
    }

    /** The getter: `value()`. */
    function Read(): (v: Value)
      reads this
      ensures v == value
    {
      value
    }

    /** `getter[OBSERVE_KEY](cb)`: queues `cb` last; the value is untouched
        and `cb` is not called. */
    method Subscribe(cb: Callback)
      modifies this`subs
      ensures subs == old(subs) + [cb]
    {
      subs := subs + [cb];
    }

    /** The setter: stores `v`, then calls every subscriber queued at that
        moment, in queue order. A subscriber that throws ends the write. */
    method Write(v: Value, doc: Host, rt: Runtime) returns (r: Outcome<Error>)
      requires doc.Valid()
      requires forall k :: 0 <= k < |subs| ==> Armed(subs[k], doc.next)
      modifies this`value, doc`parent, doc`kids, doc`attrs, doc`next, doc`kind, rt, Slots(subs)
      ensures value == v && subs == old(subs)
      ensures doc.Valid() && old(doc.next) <= doc.next
      ensures r.Ok? ==> rt.fired == old(rt.fired) + subs
      ensures r.Ok? ==> rt.toggles == old(rt.toggles) + Toggles(subs, Truthy(v))
      ensures r.Ok? ==> doc.attrs == AttrWrites(old(doc.attrs), subs, v)
      ensures r.Ok? ==> old(rt.pending) <= rt.pending
      ensures r.Fail? ==>
        && |old(rt.fired)| < |rt.fired| <= |old(rt.fired)| + |subs|
        && rt.fired == old(rt.fired) + subs[..|rt.fired| - |old(rt.fired)|]
      ensures (forall k :: 0 <= k < |subs| ==> subs[k].AttrUpdate? || subs[k].User?) ==> r == Ok
      ensures old(ToggleSafe(subs, doc)) ==> r == Ok && Toggled(subs, doc, Truthy(v))
      ensures old(subs) == [] ==>
        && r == Ok && doc.parent == old(doc.parent) && doc.kids == old(doc.kids)
        && doc.next == old(doc.next) && doc.kind == old(doc.kind) && doc.attrs == old(doc.attrs)
        && rt.fired == old(rt.fired) && rt.toggles == old(rt.toggles) && rt.pending == old(rt.pending)
    {
      ghost var safe := ToggleSafe(subs, doc);
      ghost var ts := Targets(subs);
      if safe {
        SettledStart(subs, doc, Truthy(v));
      }
      value := v;
      var queue := subs;
      if queue == [] {
        return Ok;
      }
      r := RunQueue(queue, v, doc, rt, ts, safe);
      if safe {
        SettledEnd(queue, ts, doc, Truthy(v));
      }
    }
  }

  /** The `forEach` of a write of `v` over a nonempty queue: every
      subscriber in order, until one throws. With targets `ts` and `safe`,
      it keeps the toggled components of a separate queue settled. */
  method RunQueue(queue: seq<Callback>, v: Value, doc: Host, rt: Runtime, ghost ts: seq<Target>, ghost safe: bool)
    returns (r: Outcome<Error>)
    requires queue != [] && doc.Valid() && forall k :: 0 <= k < |queue| ==> Armed(queue[k], doc.next)
    requires |ts| == |queue| && forall k :: 0 <= k < |queue| && queue[k].IfToggle? ==> ts[k] == Target(queue[k].node.nodeList, queue[k].node.placeholder)
    requires safe ==> Separate(queue, ts) && Settled(queue, ts, 0, doc.parent, Truthy(v))
    modifies doc`parent, doc`kids, doc`attrs, doc`next, doc`kind, rt, Slots(queue)
    ensures doc.Valid() && old(doc.next) <= doc.next
    ensures r.Ok? ==> rt.fired == old(rt.fired) + queue
    ensures r.Ok? ==> rt.toggles == old(rt.toggles) + Toggles(queue, Truthy(v))
    ensures r.Ok? ==> doc.attrs == AttrWrites(old(doc.attrs), queue, v)
    ensures r.Ok? ==> old(rt.pending) <= rt.pending
    ensures r.Fail? ==>
      && |old(rt.fired)| < |rt.fired| <= |old(rt.fired)| + |queue|
      && rt.fired == old(rt.fired) + queue[..|rt.fired| - |old(rt.fired)|]
    ensures (forall k :: 0 <= k < |queue| ==> queue[k].AttrUpdate? || queue[k].User?) ==> r == Ok
    ensures |ts| == |queue| && forall k :: 0 <= k < |queue| && queue[k].IfToggle? ==> ts[k] == Target(queue[k].node.nodeList, queue[k].node.placeholder)
    ensures safe ==> r == Ok && Settled(queue, ts, |queue|, doc.parent, Truthy(v))
  {
    for i := 0 to |queue|
      invariant doc.Valid() && old(doc.next) <= doc.next
      invariant forall k :: 0 <= k < |queue| ==> Armed(queue[k], doc.next)
      invariant rt.fired == old(rt.fired) + queue[..i]
      invariant rt.toggles == old(rt.toggles) + Toggles(queue[..i], Truthy(v))
      invariant doc.attrs == AttrWrites(old(doc.attrs), queue[..i], v)
      invariant old(rt.pending) <= rt.pending
      invariant safe ==> Settled(queue, ts, i, doc.parent, Truthy(v))
      invariant |ts| == |queue| && forall k :: 0 <= k < |queue| && queue[k].IfToggle? ==> ts[k] == Target(queue[k].node.nodeList, queue[k].node.placeholder)
    {
      r := NotifySeparate(queue, i, v, doc, rt, old(rt.fired), old(rt.toggles), old(doc.attrs), ts, safe);
      if r.Fail? {
        return;
      }
    }
    assert queue[..|queue|] == queue;
    r := Ok;
  }

  /** The scenario of the signal's unit test: a signal made with 0 reads 0;
      after writing 1 it reads 1 and nothing was called; a subscriber added
      then is called by the next write, and only by it. */
  method SignalScenario() returns (first: Value, second: Value, calledBefore: seq<Callback>, calledAfter: seq<Callback>)
    ensures first == Num(0) && second == Num(1)
    ensures calledBefore == [] && calledAfter == [User(0)]
  {
    var doc := new Host();
    var rt := new Runtime();
    var s := new Signal(Num(0));
    first := s.Read();
    var r := s.Write(Num(1), doc, rt);
    second := s.Read();
    calledBefore := rt.fired;
    s.Subscribe(User(0));
    r := s.Write(Num(2), doc, rt);
    calledAfter := rt.fired;
  }

  /** One turn of the `forEach` of a write of `v`: the `i`-th queued
      subscriber runs, and the logs, which held the effects of the
      subscribers before it, then hold its effects too. */
  method Notify(queue: seq<Callback>, i: nat, v: Value, doc: Host, rt: Runtime,
                ghost f0: seq<Callback>, ghost t0: seq<Toggle>, ghost a0: map<(NodeId, string), Value>)
    returns (r: Outcome<Error>)
    requires i < |queue| && doc.Valid() && forall k :: 0 <= k < |queue| ==> Armed(queue[k], doc.next)
    requires rt.fired == f0 + queue[..i] && rt.toggles == t0 + Toggles(queue[..i], Truthy(v))
    requires doc.attrs == AttrWrites(a0, queue[..i], v)
    modifies doc`parent, doc`kids, doc`attrs, doc`next, doc`kind, rt, if queue[i].ChildReplace? then {queue[i].slot} else {}
    ensures doc.Valid() && old(doc.next) <= doc.next && forall k :: 0 <= k < |queue| ==> Armed(queue[k], doc.next)
    ensures rt.fired == f0 + queue[..i + 1]
    ensures r.Ok? ==> rt.toggles == t0 + Toggles(queue[..i + 1], Truthy(v))
    ensures r.Ok? ==> rt.pending == old(rt.pending) + DeferredOf(queue[i], Truthy(v))
    ensures r.Ok? ==> doc.attrs == AttrWrites(a0, queue[..i + 1], v)
    ensures queue[i].IfToggle? ==> OnlyToggles(old(doc.parent), doc.parent, queue[i].node.nodeList, queue[i].node.placeholder)
    ensures queue[i].IfToggle? && old(Exclusive(doc, queue[i].node.nodeList, queue[i].node.placeholder)) ==>
      r == Ok && ShownIn(doc.parent, Target(queue[i].node.nodeList, queue[i].node.placeholder), Truthy(v))
    ensures queue[i].AttrUpdate? || queue[i].User? ==> r == Ok && doc.parent == old(doc.parent)
  {
    assert queue[..i + 1][..i] == queue[..i];
    QueueStep(queue, i);
    r := Dispatch(queue[i], v, doc, rt);
    ArmedLater(queue, old(doc.next), doc.next);
  }

  /** A turn of the `forEach` in a queue whose toggled components, with
      targets `ts`, share no node: every component stays shown or hidden,
      and the one this turn toggles is then the way `v` says. */
  method NotifySeparate(queue: seq<Callback>, i: nat, v: Value, doc: Host, rt: Runtime,
                        ghost f0: seq<Callback>, ghost t0: seq<Toggle>, ghost a0: map<(NodeId, string), Value>,
                        ghost ts: seq<Target>, ghost safe: bool)
    returns (r: Outcome<Error>)
    requires i < |queue| && doc.Valid() && forall k :: 0 <= k < |queue| ==> Armed(queue[k], doc.next)
    requires |ts| == |queue| && forall k :: 0 <= k < |queue| && queue[k].IfToggle? ==> ts[k] == Target(queue[k].node.nodeList, queue[k].node.placeholder)
    requires safe ==> Separate(queue, ts)
    requires rt.fired == f0 + queue[..i] && rt.toggles == t0 + Toggles(queue[..i], Truthy(v))
    requires doc.attrs == AttrWrites(a0, queue[..i], v)
    modifies doc`parent, doc`kids, doc`attrs, doc`next, doc`kind, rt, if queue[i].ChildReplace? then {queue[i].slot} else {}
    ensures doc.Valid() && old(doc.next) <= doc.next && forall k :: 0 <= k < |queue| ==> Armed(queue[k], doc.next)
    ensures rt.fired == f0 + queue[..i + 1]
    ensures |ts| == |queue| && forall k :: 0 <= k < |queue| && queue[k].IfToggle? ==> ts[k] == Target(queue[k].node.nodeList, queue[k].node.placeholder)
    ensures r.Ok? ==> rt.toggles == t0 + Toggles(queue[..i + 1], Truthy(v))
    ensures r.Ok? ==> rt.pending == old(rt.pending) + DeferredOf(queue[i], Truthy(v))
    ensures r.Ok? ==> doc.attrs == AttrWrites(a0, queue[..i + 1], v)
    ensures safe && old(Settled(queue, ts, i, doc.parent, Truthy(v))) ==> r == Ok && Settled(queue, ts, i + 1, doc.parent, Truthy(v))
    ensures queue[i].AttrUpdate? || queue[i].User? ==> r == Ok
  {
    ghost var p0 := doc.parent;
    ghost var settled := safe && Settled(queue, ts, i, p0, Truthy(v));
    if settled && queue[i].IfToggle? {
      assert SettledAt(queue, ts, i, i, p0, Truthy(v));
    }
    r := Notify(queue, i, v, doc, rt, f0, t0, a0);
    if settled {
      SettledStep(queue, ts, i, p0, doc.parent, Truthy(v));
    }
  }

  /** The host attributes after the attribute subscribers of a queue have
      each set their attribute to `v`, in queue order. */
  function AttrWrites(m: map<(NodeId, string), Value>, cbs: seq<Callback>, v: Value): map<(NodeId, string), Value> {
    if cbs == [] then m
    else
      var cb := cbs[|cbs| - 1];
      var m' := AttrWrites(m, cbs[..|cbs| - 1], v);
      if cb.AttrUpdate? then m'[(cb.el, cb.key) := v] else m'
  }

  /** After a write has run its attribute subscribers, every attribute one
      of them updates holds the written value: a signal attribute follows
      the signal. */
  lemma {:induction false} AttrWritesUpdated(m: map<(NodeId, string), Value>, cbs: seq<Callback>, v: Value)
    ensures forall cb :: cb in cbs && cb.AttrUpdate? ==>
      (cb.el, cb.key) in AttrWrites(m, cbs, v) && AttrWrites(m, cbs, v)[(cb.el, cb.key)] == v
  {
    if cbs != [] {
      var n := |cbs| - 1;
      var front := cbs[..n];
      AttrWritesUpdated(m, front, v);
      assert cbs == front + [cbs[n]];
      forall cb | cb in cbs ensures cb in front || cb == cbs[n] { }
    }
  }

  /** Every attribute no subscriber updates is as it was before the write. */
  lemma {:induction false} AttrWritesKept(m: map<(NodeId, string), Value>, cbs: seq<Callback>, v: Value)
    ensures forall k: (NodeId, string) :: AttrUpdate(k.0, k.1) !in cbs ==>
      (k in AttrWrites(m, cbs, v) <==> k in m) && (k in m ==> AttrWrites(m, cbs, v)[k] == m[k])
  {
    if cbs != [] {
      var n := |cbs| - 1;
      var front := cbs[..n];
      AttrWritesKept(m, front, v);
      forall k: (NodeId, string) | AttrUpdate(k.0, k.1) !in cbs ensures AttrUpdate(k.0, k.1) !in front {
        assert cbs == front + [cbs[n]];
      }
    }
  }

  /** The state of one signal child: the host element it lives in and the
      text node currently standing for the signal's value (`preNode`). */
  class ChildSlot {
    const parentEl: NodeId
    var pre: NodeId

    constructor (parentEl: NodeId, pre: NodeId)
      ensures this.parentEl == parentEl && this.pre == pre
    {
      this.parentEl, this.pre := parentEl, pre;
    }

    /** The subscriber `bindReactivityChild` queues: a new text node for the
        value replaces the previous node in place, which fails when the
        previous node is no longer a child of the element. */
    method Refresh(doc: Host, v: Value) returns (r: Outcome<Error>)
      requires doc.Valid() && parentEl < doc.next
      modifies this`pre, doc`parent, doc`kids, doc`next, doc`kind
      ensures doc.Valid() && doc.next == old(doc.next) + 1
      ensures doc.kind == old(doc.kind)[old(doc.next) := TextNode(v)]
      ensures old(pre) !in old(doc.Kids(parentEl)) ==>
        r == Fail(Dom(NotFound)) && pre == old(pre) && doc.parent == old(doc.parent) && doc.kids == old(doc.kids)
      ensures old(pre) in old(doc.Kids(parentEl)) ==>
        && r == Ok && pre == old(doc.next)
        && doc.parent == (old(doc.parent) - {old(pre)})[pre := parentEl]
        && doc.Kids(parentEl) == Replaced(old(doc.Kids(parentEl)), old(pre), pre)
        && forall q :: q != parentEl ==> doc.Kids(q) == old(doc.Kids(q))
    {
      var updated := doc.CreateText(v);
      ghost var k0 := doc.kids;
      forall q ensures updated !in KidsIn(k0, q) {
        doc.ChildOf(q, updated);
      }
      var res := doc.ReplaceChild(parentEl, updated, pre);
      if res.Fail? {
        return Fail(Dom(res.error));
      }
      forall q ensures Except(KidsIn(k0, q), {updated}) == KidsIn(k0, q) {
        ExceptDisjoint(KidsIn(k0, q), {updated});
      }
      pre := updated;
      r := Ok;
    }
  }

  /** The slots a queue's child subscribers update. */
  ghost function Slots(cbs: seq<Callback>): set<ChildSlot> {
    set cb | cb in cbs && cb.ChildReplace? :: cb.slot
  }

  /** What a subscriber needs to run against a host with `next` nodes: a
      toggled component must have been built, and a slot's element must
      exist. */
  ghost predicate Armed(cb: Callback, next: nat)
    reads if cb.IfToggle? then {cb.node} else {}
  {
    match cb
    case IfToggle(c) =>
      && c.nodeList != [] && NoDup(c.nodeList) && c.placeholder !in c.nodeList
      && c.placeholder < next && forall n :: n in c.nodeList ==> n < next
    case ChildReplace(slot) => slot.parentEl < next
    case AttrUpdate(el, _) => el < next
    case User(_) => true
  }

  /** Creating nodes keeps every subscriber of a queue runnable. */
  lemma ArmedLater(q: seq<Callback>, next: nat, later: nat)
    requires next <= later && forall k :: 0 <= k < |q| ==> Armed(q[k], next)
    ensures forall k :: 0 <= k < |q| ==> Armed(q[k], later)
  {
  }
  /** The `render`/`unrender` call a subscriber makes when the signal's
      value has truthiness `show`. */
  function ToggleOf(cb: Callback, show: bool): seq<Toggle> {
    if cb.IfToggle? then [Toggle(cb.node, show)] else []
  }

  function Toggles(cbs: seq<Callback>, show: bool): seq<Toggle> {
    if cbs == [] then [] else Toggles(cbs[..|cbs| - 1], show) + ToggleOf(cbs[|cbs| - 1], show)
  }

  /** A hook as the list `setTimeout` receives: one entry when it is set. */
  function Queued(h: Option<Hook>): seq<Hook> {
    if h.Some? then [h.value] else []
  }

  /** The hook a subscriber defers: a toggled component's `runOnload` when
      it renders and its `runUnload` when it unrenders. */
  function DeferredOf(cb: Callback, show: bool): seq<Hook>
    reads if cb.IfToggle? then {cb.node} else {}
  {
    if cb.IfToggle? then Queued(if show then cb.node.runOnload else cb.node.runUnload) else []
  }

  /** One more subscriber of a queue has run. */
  lemma QueueStep(q: seq<Callback>, i: nat)
    requires i < |q|
    ensures q[..i + 1] == q[..i] + [q[i]]
    ensures forall cb :: cb in q[..i + 1] <==> cb in q[..i] || cb == q[i]
  {
    assert q[..i + 1] == q[..i] + [q[i]];
  }

  /** A write calls `render` or `unrender`, according to the value just
      written, once for each `d-if` subscriber on the queue, and makes no
      other such call. */
  lemma {:induction false} TogglesOfQueue(cbs: seq<Callback>, show: bool)
    ensures forall t :: t in Toggles(cbs, show) ==> t.show == show
    ensures forall c :: Toggle(c, show) in Toggles(cbs, show) <==> IfToggle(c) in cbs
    ensures |Toggles(cbs, show)| <= |cbs|
  {
    if cbs != [] {
      var n := |cbs| - 1;
      TogglesOfQueue(cbs[..n], show);
      assert cbs == cbs[..n] + [cbs[n]];
      assert forall cb :: cb in cbs <==> cb in cbs[..n] || cb == cbs[n];
    }
  }

  /** The components a queue toggles. */
  ghost function ToggledNodes(q: seq<Callback>): set<Component> {
    set cb | cb in q && cb.IfToggle? :: cb.node
  }

  ghost function TargetOf(cb: Callback): Target
    reads if cb.IfToggle? then {cb.node} else {}
  {
    if cb.IfToggle? then Target(cb.node.nodeList, cb.node.placeholder) else Target([], 0)
  }

  /** The targets of a queue, one per subscriber. */
  ghost function Targets(q: seq<Callback>): (ts: seq<Target>)
    reads ToggledNodes(q)
    ensures |ts| == |q| && forall k :: 0 <= k < |q| ==> ts[k] == TargetOf(q[k])
  {
    seq(|q|, k requires 0 <= k < |q| reads ToggledNodes(q) => TargetOf(q[k]))
  }

  /** Two targets share no content node and no placeholder. */
  ghost predicate Apart(a: Target, b: Target) {
    && a.ph != b.ph && a.ph !in b.nodes && b.ph !in a.nodes
    && forall n :: n in a.nodes ==> n !in b.nodes
  }

  /** Subscribers `k` and `m` of a queue do not get in each other's way:
      when both toggle, they toggle the same component or targets apart. */
  ghost predicate PairApart(q: seq<Callback>, ts: seq<Target>, k: nat, m: nat)
    requires |ts| == |q| && k < |q| && m < |q|
  {
    q[k].IfToggle? && q[m].IfToggle? ==>
      if q[k].node == q[m].node then ts[k] == ts[m] else Apart(ts[k], ts[m])
  }

  /** A queue whose subscribers cannot get in each other's way: no text
      slot is replaced, and distinct toggled components are apart. */
  ghost predicate Separate(q: seq<Callback>, ts: seq<Target>)
    requires |ts| == |q|
  {
    && (forall k :: 0 <= k < |q| ==> !q[k].ChildReplace?)
    && forall k, m :: 0 <= k < |q| && 0 <= m < |q| ==> PairApart(q, ts, k, m)
  }

  /** Subscriber `k`, if it toggles, finds its target shown or hidden, and
      the way `show` says once it is among the first `i`. */
  ghost predicate SettledAt(q: seq<Callback>, ts: seq<Target>, k: nat, i: nat, parent: map<NodeId, NodeId>, show: bool)
    requires |ts| == |q| && k < |q|
  {
    q[k].IfToggle? ==>
      (ShownIn(parent, ts[k], true) || ShownIn(parent, ts[k], false)) && (k < i ==> ShownIn(parent, ts[k], show))
  }

  /** Every toggled target is shown or hidden, and the first `i` are the
      way `show` says. */
  ghost predicate Settled(q: seq<Callback>, ts: seq<Target>, i: nat, parent: map<NodeId, NodeId>, show: bool)
    requires |ts| == |q|
  {
    forall k :: 0 <= k < |q| ==> SettledAt(q, ts, k, i, parent, show)
  }

  /** Subscriber `k`, if it toggles, finds exactly one of its component's
      content and placeholder attached. */
  ghost predicate ExclusiveAt(q: seq<Callback>, k: nat, doc: Host)
    requires k < |q|
    reads doc, if q[k].IfToggle? then {q[k].node} else {}
  {
    q[k].IfToggle? ==> Exclusive(doc, q[k].node.nodeList, q[k].node.placeholder)
  }

  /** A queue a write runs to the end: it is separate, and each toggled
      component shows exactly one of its content and its placeholder. */
  ghost predicate ToggleSafe(q: seq<Callback>, doc: Host)
    reads doc, ToggledNodes(q)
  {
    && Separate(q, Targets(q))
    && forall k :: 0 <= k < |q| ==> ExclusiveAt(q, k, doc)
  }

  /** Subscriber `k`, if it toggles, left its component shown when `show`
      and hidden otherwise. */
  ghost predicate ToggledAt(q: seq<Callback>, k: nat, doc: Host, show: bool)
    requires k < |q|
    reads doc, if q[k].IfToggle? then {q[k].node} else {}
  {
    q[k].IfToggle? ==>
      if show then Shown(doc, q[k].node.nodeList, q[k].node.placeholder)
      else Hidden(doc, q[k].node.nodeList, q[k].node.placeholder)
  }

  /** Every toggled component is shown when `show`, hidden otherwise. */
  ghost predicate Toggled(q: seq<Callback>, doc: Host, show: bool)
    reads doc, ToggledNodes(q)
  {
    forall k :: 0 <= k < |q| ==> ToggledAt(q, k, doc, show)
  }

  lemma SettledStart(q: seq<Callback>, doc: Host, show: bool)
    requires ToggleSafe(q, doc)
    ensures Settled(q, Targets(q), 0, doc.parent, show)
  {
    var ts := Targets(q);
    forall k | 0 <= k < |q| ensures SettledAt(q, ts, k, 0, doc.parent, show) {
      assert ExclusiveAt(q, k, doc);
      assert ts[k] == TargetOf(q[k]);
    }
  }

  lemma SettledEnd(q: seq<Callback>, ts: seq<Target>, doc: Host, show: bool)
    requires |ts| == |q| && forall k :: 0 <= k < |q| && q[k].IfToggle? ==> ts[k] == Target(q[k].node.nodeList, q[k].node.placeholder)
    requires Settled(q, ts, |q|, doc.parent, show)
    ensures Toggled(q, doc, show)
  {
    forall k | 0 <= k < |q| ensures ToggledAt(q, k, doc, show) {
      assert SettledAt(q, ts, k, |q|, doc.parent, show);
    }
  }

  /** Toggling one target leaves a target apart from it as it was. */
  lemma ShownKept(p0: map<NodeId, NodeId>, p1: map<NodeId, NodeId>, a: Target, b: Target, show: bool)
    requires Apart(a, b) && OnlyToggles(p0, p1, b.nodes, b.ph) && ShownIn(p0, a, show)
    ensures ShownIn(p1, a, show)
  {
  }

  /** One more subscriber of a separate queue ran: it toggled its own
      target to `show` and moved no other node, or it moved nothing. */
  lemma SettledStep(q: seq<Callback>, ts: seq<Target>, i: nat, p0: map<NodeId, NodeId>, p1: map<NodeId, NodeId>, show: bool)
    requires i < |q| && |ts| == |q| && Separate(q, ts) && Settled(q, ts, i, p0, show)
    requires q[i].IfToggle? ==> ShownIn(p1, ts[i], show) && OnlyToggles(p0, p1, ts[i].nodes, ts[i].ph)
    requires !q[i].IfToggle? ==> p1 == p0
    ensures Settled(q, ts, i + 1, p1, show)
  {
    var j := i + 1;
    if q[i].IfToggle? {
      forall k | 0 <= k < |q| ensures SettledAt(q, ts, k, j, p1, show) {
        assert SettledAt(q, ts, k, i, p0, show);
        if q[k].IfToggle? && q[k].node != q[i].node {
          assert PairApart(q, ts, k, i);
          if ShownIn(p0, ts[k], true) { ShownKept(p0, p1, ts[k], ts[i], true); } else { ShownKept(p0, p1, ts[k], ts[i], false); }
          if k < i { ShownKept(p0, p1, ts[k], ts[i], show); }
        } else if q[k].IfToggle? {
          assert PairApart(q, ts, k, i);
        }
      }
    } else {
      forall k | 0 <= k < |q| ensures SettledAt(q, ts, k, j, p1, show) {
        assert SettledAt(q, ts, k, i, p0, show);
      }
    }
  }

  /** Runs one subscriber during a write of `v`: every subscriber that
      reads the signal's getter reads `v`. */
  method Dispatch(cb: Callback, v: Value, doc: Host, rt: Runtime) returns (r: Outcome<Error>)
    requires doc.Valid() && Armed(cb, doc.next)
    modifies doc`parent, doc`kids, doc`attrs, doc`next, doc`kind, rt, if cb.ChildReplace? then {cb.slot} else {}
    ensures doc.Valid() && old(doc.next) <= doc.next
    ensures rt.fired == old(rt.fired) + [cb]
    ensures rt.toggles == old(rt.toggles) + ToggleOf(cb, Truthy(v))
    ensures rt.pending == old(rt.pending) + (if r.Ok? then DeferredOf(cb, Truthy(v)) else [])
    ensures doc.attrs == if cb.AttrUpdate? then old(doc.attrs)[(cb.el, cb.key) := v] else old(doc.attrs)
    ensures cb.IfToggle? && old(Exclusive(doc, cb.node.nodeList, cb.node.placeholder)) ==>
      r == Ok && if Truthy(v) then Shown(doc, cb.node.nodeList, cb.node.placeholder)
                 else Hidden(doc, cb.node.nodeList, cb.node.placeholder)
    ensures cb.IfToggle? ==> OnlyToggles(old(doc.parent), doc.parent, cb.node.nodeList, cb.node.placeholder)
    ensures cb.AttrUpdate? || cb.User? ==> r == Ok && unchanged(doc`parent, doc`kids, doc`next, doc`kind)
  {
    rt.fired := rt.fired + [cb];
    match cb
    case AttrUpdate(el, key) =>
      doc.SetAttribute(el, key, v);
      r := Ok;
    case IfToggle(c) =>
      if Truthy(v) {
        r := c.Render(doc, rt);
      } else {
        r := c.Unrender(doc, rt);
      }
    case ChildReplace(slot) =>
      r := slot.Refresh(doc, v);
    case User(_) =>
      r := Ok;
  }

  // ---------------------------------------------------------------------
  // Lifecycle hooks

  /** The component whose function is running, as a set. */
  function Current(ctx: Context<Component>): set<Component>
    reads ctx
  {
    if ctx.current.Some? then {ctx.current.value} else {}
  }

  /** `onload(cb)`: the running component's `runOnload` becomes `cb`; with
      no component function running nothing changes. */
  method Onload(ctx: Context<Component>, cb: Hook)
    modifies Current(ctx)`runOnload
    ensures ctx.current.Some? ==> ctx.current.value.runOnload == Some(cb)
  {
    if ctx.current.Some? {
      ctx.current.value.runOnload := Some(cb);
    }
  }

  /** `unload(cb)`: the running component's `runUnload` becomes `cb`; with
      no component function running nothing changes. */
  method Unload(ctx: Context<Component>, cb: Hook)
    modifies Current(ctx)`runUnload
    ensures ctx.current.Some? ==> ctx.current.value.runUnload == Some(cb)
  {
    if ctx.current.Some? {
      ctx.current.value.runUnload := Some(cb);
    }
  }

  predicate Registers(h: HookCall, onload: bool) {
    if onload then h.OnloadCall? else h.UnloadCall?
  }

  /** The `runOnload` (`onload` true) or `runUnload` a component has after
      its function made the calls `hooks`, starting from `init`: the last
      such call wins, and with none the field keeps its value. */
  function LastHook(hooks: seq<HookCall>, onload: bool, init: Option<Hook>): Option<Hook> {
    if hooks == [] then init
    else if Registers(hooks[|hooks| - 1], onload) then Some(hooks[|hooks| - 1].cb)
    else LastHook(hooks[..|hooks| - 1], onload, init)
  }

  /** With no such call the field keeps its value. */
  lemma {:induction false} LastHookNone(hooks: seq<HookCall>, onload: bool, init: Option<Hook>)
    requires forall i :: 0 <= i < |hooks| ==> !Registers(hooks[i], onload)
    ensures LastHook(hooks, onload, init) == init
  {
    if hooks != [] {
      var n := |hooks| - 1;
      assert forall i :: 0 <= i < n ==> hooks[..n][i] == hooks[i];
      LastHookNone(hooks[..n], onload, init);
    }
  }

  /** Otherwise it holds the callback of the last such call. */
  lemma {:induction false} LastHookLast(hooks: seq<HookCall>, onload: bool, init: Option<Hook>, i: nat)
    requires i < |hooks| && Registers(hooks[i], onload)
    requires forall j :: i < j < |hooks| ==> !Registers(hooks[j], onload)
    ensures LastHook(hooks, onload, init) == Some(hooks[i].cb)
  {
    var n := |hooks| - 1;
    if i < n {
      assert forall j :: i < j < n ==> hooks[..n][j] == hooks[j];
      assert hooks[..n][i] == hooks[i];
      LastHookLast(hooks[..n], onload, init, i);
    }
  }

  // ---------------------------------------------------------------------
  // Directives

  /** `bindIf(node, value)`: queues the `d-if` subscriber on a getter; any
      other value has no observe method to call. */
  method BindIf(node: Component, v: AttrValue) returns (r: Outcome<Error>)
    modifies (if v.Getter? then {v.sig} else {})`subs
    ensures v.Getter? ==> r == Ok && v.sig.subs == old(v.sig.subs) + [IfToggle(node)] && v.sig.value == old(v.sig.value)
    ensures !v.Getter? ==> r == Fail(NotAFunction)
  {
    match v
    case Getter(s) =>
      s.Subscribe(IfToggle(node));
      r := Ok;
    case _ =>
      r := Fail(NotAFunction);
  }

  /** `bindDirective(node, key, value)`: nothing for an unknown key or a
      value that is not a function; for `d-if`, `bindIf`. */
  method BindDirective(node: Component, key: string, v: AttrValue) returns (r: Outcome<Error>)
    modifies (if v.Getter? then {v.sig} else {})`subs
    ensures !IsDefaultDirective(key) || !IsFunction(v) ==> r == Ok && unchanged(if v.Getter? then {v.sig} else {})
    ensures key == "d-if" && v.Getter? ==> r == Ok && v.sig.subs == old(v.sig.subs) + [IfToggle(node)] && v.sig.value == old(v.sig.value)
    ensures key == "d-if" && v.Handler? ==> r == Fail(NotAFunction)
  {
    if !IsDefaultDirective(key) || !IsFunction(v) {
      return Ok;
    }
    r := BindIf(node, v);
  }

  /** The `d-if` subscribers a component's build queues on `s`: one for
      each `d-if` attribute holding the getter of `s`. */
  function DirSubs(attrs: seq<Attr>, s: Signal, node: Component): seq<Callback> {
    if attrs == [] then []
    else
      var a := attrs[|attrs| - 1];
      DirSubs(attrs[..|attrs| - 1], s, node) + (if a == Attr("d-if", Getter(s)) then [IfToggle(node)] else [])
  }

  /** In a record, a component's build queues exactly one `d-if`
      subscriber, on the signal whose getter is the `d-if` value, and none
      on any other signal. */
  lemma {:induction false} DirSubsOfRecord(attrs: seq<Attr>, s: Signal, node: Component)
    requires UniqueKeys(attrs)
    ensures DirSubs(attrs, s, node) == if GetAttributeValue(attrs, "d-if") == Some(Getter(s)) then [IfToggle(node)] else []
  {
    if attrs != [] {
      var n := |attrs| - 1;
      var front := attrs[..n];
      UniquePrefix(attrs, n);
      DirSubsOfRecord(front, s, node);
      forall i | 0 <= i < n ensures front[i] == attrs[i] && attrs[i].key != attrs[n].key { }
      if attrs[n].key == "d-if" {
        GetAttributeValueUnique(attrs, n);
        GetAttributeValueSpec(front, "d-if");
      } else {
        FirstMatchInFront(attrs, "d-if");
      }
    }
  }

  /** Looking a key up in a record whose last entry has another key is
      looking it up in the front. */
  lemma {:induction false} FirstMatchInFront(attrs: seq<Attr>, key: string)
    requires attrs != [] && attrs[|attrs| - 1].key != key
    ensures GetAttributeValue(attrs, key) == GetAttributeValue(attrs[..|attrs| - 1], key)
  {
    var n := |attrs| - 1;
    if n > 0 && attrs[0].key != key {
      FirstMatchInFront(attrs[1..], key);
      assert attrs[1..][..n - 1] == attrs[..n][1..];
    }
  }


  // ---------------------------------------------------------------------
  // Binding attributes and children

  /** `bindEvents(el, key, fn)`: a click or change listener for the two
      event keys, nothing for any other. */
  method BindEvents(doc: Host, el: NodeId, key: string)
    modifies doc`listeners
    ensures doc.listeners == old(doc.listeners) + EventOf(el, key)
  {
    if key == "onClick" {
      doc.AddEventListener(el, Click);
    } else if key == "onChange" {
      doc.AddEventListener(el, Change);
    }
  }

  /** `bindAttributes(el, attributes)`: string values are set on the
      element, function values under event keys become listeners, and a
      getter gets a subscriber that sets the attribute on every later
      write. */
  method BindAttributes(doc: Host, el: NodeId, attrs: seq<Attr>)
    requires doc.Valid() && el < doc.next
    modifies doc`attrs, doc`listeners, AttrSignals(attrs)`subs
    ensures doc.Valid()
    ensures doc.attrs == SetLiterals(old(doc.attrs), el, attrs)
    ensures doc.listeners == old(doc.listeners) + Listeners(el, attrs)
    ensures forall s :: s in AttrSignals(attrs) ==> s.subs == old(s.subs) + AttrSubs(el, attrs, s)
  {
    ghost var sigs := AttrSignals(attrs);
    ghost var subs0 := map s | s in sigs :: s.subs;
    for i := 0 to |attrs|
      invariant doc.Valid()
      invariant doc.attrs == SetLiterals(old(doc.attrs), el, attrs[..i])
      invariant doc.listeners == old(doc.listeners) + Listeners(el, attrs[..i])
      invariant SubsFrom(sigs, subs0, el, attrs[..i])
    {
      assert attrs[..i + 1][..i] == attrs[..i];
      BindAttribute(doc, el, attrs, i, sigs, subs0);
    }
    assert attrs[..|attrs|] == attrs;
  }

  /** Every signal of `sigs` holds its subscribers from `subs0` followed by
      those `bindAttributes` queues for the attributes in `prefix`. */
  ghost predicate SubsFrom(sigs: set<Signal>, subs0: map<Signal, seq<Callback>>, el: NodeId, prefix: seq<Attr>)
    reads sigs
  {
    forall s :: s in sigs ==> s in subs0 && s.subs == subs0[s] + AttrSubs(el, prefix, s)
  }

  /** One turn of the `forEach` of `bindAttributes`: a listener for an
      event key holding a function, the value set when it is a string,
      and an attribute subscriber queued when it is a getter. */
  method BindAttribute(doc: Host, el: NodeId, attrs: seq<Attr>, i: nat,
                       ghost sigs: set<Signal>, ghost subs0: map<Signal, seq<Callback>>)
    requires doc.Valid() && el < doc.next && i < |attrs| && sigs == AttrSignals(attrs)
    requires SubsFrom(sigs, subs0, el, attrs[..i])
    modifies doc`attrs, doc`listeners, (if attrs[i].value.Getter? then {attrs[i].value.sig} else {})`subs
    ensures doc.Valid()
    ensures doc.attrs == if attrs[i].value.Literal? then old(doc.attrs)[(el, attrs[i].key) := Str(attrs[i].value.s)] else old(doc.attrs)
    ensures doc.listeners == old(doc.listeners) + if IsFunction(attrs[i].value) then EventOf(el, attrs[i].key) else []
    ensures SubsFrom(sigs, subs0, el, attrs[..i + 1])
  {
    var a := attrs[i];
    assert a.value.Getter? ==> a.value.sig in sigs;
    assert attrs[..i + 1][..i] == attrs[..i];
    var key, value := a.key, a.value;
    if !(IsDefaultDirective(key) && IsSignalGetter(value)) && IsFunction(value) {
      BindEvents(doc, el, key);
    }
    if value.Literal? {
      doc.SetAttribute(el, key, Str(value.s));
    } else if IsSignalGetter(value) {
      value.sig.Subscribe(AttrUpdate(el, key));
    }
  }

  /** `bindReactivityChild(parentEl, getter)`: a text node for the current
      value is appended to the element and a subscriber is queued that
      replaces it on every later write. */
  method BindReactivityChild(doc: Host, parentEl: NodeId, s: Signal) returns (slot: ChildSlot)
    requires doc.Valid() && parentEl < doc.next
    modifies doc`parent, doc`kids, doc`next, doc`kind, s`subs
    ensures doc.Valid() && fresh(slot) && slot.parentEl == parentEl && slot.pre == old(doc.next)
    ensures doc.next == old(doc.next) + 1 && doc.kind == old(doc.kind)[slot.pre := TextNode(s.value)]
    ensures doc.parent == old(doc.parent)[slot.pre := parentEl]
    ensures doc.Kids(parentEl) == old(doc.Kids(parentEl)) + [slot.pre]
    ensures forall q :: q != parentEl ==> doc.Kids(q) == old(doc.Kids(q))
    ensures s.subs == old(s.subs) + [ChildReplace(slot)]
  {
    var pre := doc.CreateText(s.value);
    ghost var k0 := doc.kids;
    forall q ensures pre !in KidsIn(k0, q) {
      doc.ChildOf(q, pre);
    }
    doc.AppendChild(parentEl, pre);
    forall q ensures Except(KidsIn(k0, q), {pre}) == KidsIn(k0, q) {
      ExceptDisjoint(KidsIn(k0, q), {pre});
    }
    slot := new ChildSlot(parentEl, pre);
    s.Subscribe(ChildReplace(slot));
  }

  // ---------------------------------------------------------------------
  // The render tree

  ghost function NodeHeight(n: RenderNode): nat {
    match n
    case Raw(e) => e.height
    case Comp(c) => c.height
  }

  /** The raw elements of a node's subtree, the node included. */
  ghost function NodeRaws(n: RenderNode): set<RawElement> {
    match n
    case Raw(e) => {e} + e.raws
    case Comp(c) => c.raws
  }

  /** The components of a node's subtree, the node included. */
  ghost function NodeComps(n: RenderNode): set<Component> {
    match n
    case Raw(e) => e.comps
    case Comp(c) => {c} + c.comps
  }

  /** The placeholders of a node's subtree, the node's own included. */
  ghost function NodeHoles(n: RenderNode): set<NodeId> {
    match n
    case Raw(e) => {e.placeholder} + e.holes
    case Comp(c) => {c.placeholder} + c.holes
  }

  /** The signals a node's subtree binds. */
  ghost function NodeSignals(n: RenderNode): set<Signal> {
    match n
    case Raw(e) => e.signals
    case Comp(c) => c.signals
  }

  function NodeList(n: RenderNode): seq<NodeId>
    reads match n case Raw(e) => e case Comp(c) => c
  {
    match n
    case Raw(e) => e.nodeList
    case Comp(c) => c.nodeList
  }

  ghost predicate NodeWF(n: RenderNode)
    decreases NodeHeight(n), 2
  {
    match n
    case Raw(e) => e.WF()
    case Comp(c) => c.WF()
  }

  /** `n` is a well-formed part of a subtree of height `h` made of the
      given raw elements, components, placeholders and signals. */
  ghost predicate Within(n: RenderNode, h: nat, raws: set<RawElement>, comps: set<Component>,
                         holes: set<NodeId>, signals: set<Signal>)
    decreases h, 0
  {
    && NodeHeight(n) < h && NodeRaws(n) <= raws && NodeComps(n) <= comps
    && NodeHoles(n) <= holes && NodeSignals(n) <= signals && NodeWF(n)
  }

  /** The parts of a child list's subtrees. */
  ghost function KidsHeight(cs: seq<Child>): nat {
    if cs == [] then 0
    else
      var h := KidsHeight(cs[1..]);
      if cs[0].Nested? && NodeHeight(cs[0].node) > h then NodeHeight(cs[0].node) else h
  }

  ghost function KidsRaws(cs: seq<Child>): set<RawElement> {
    if cs == [] then {} else (if cs[0].Nested? then NodeRaws(cs[0].node) else {}) + KidsRaws(cs[1..])
  }

  ghost function KidsComps(cs: seq<Child>): set<Component> {
    if cs == [] then {} else (if cs[0].Nested? then NodeComps(cs[0].node) else {}) + KidsComps(cs[1..])
  }

  ghost function KidsHoles(cs: seq<Child>): set<NodeId> {
    if cs == [] then {} else (if cs[0].Nested? then NodeHoles(cs[0].node) else {}) + KidsHoles(cs[1..])
  }

  ghost function KidsSignals(cs: seq<Child>): set<Signal> {
    if cs == [] then {}
    else
      (match cs[0] case Reactive(s) => {s} case Nested(n) => NodeSignals(n) case Static(_) => {})
      + KidsSignals(cs[1..])
  }

  /** Each child's parts are among the parts of the list. */
  lemma {:induction false} KidsCover(cs: seq<Child>, i: nat)
    requires i < |cs|
    ensures cs[i].Nested? ==>
      && NodeHeight(cs[i].node) <= KidsHeight(cs)
      && NodeRaws(cs[i].node) <= KidsRaws(cs) && NodeComps(cs[i].node) <= KidsComps(cs)
      && NodeHoles(cs[i].node) <= KidsHoles(cs) && NodeSignals(cs[i].node) <= KidsSignals(cs)
    ensures cs[i].Reactive? ==> cs[i].sig in KidsSignals(cs)
  {
    if i > 0 {
      KidsCover(cs[1..], i - 1);
      assert cs[1..][i - 1] == cs[i];
    }
  }
  /** Every node keeps its kind. */
  ghost predicate Grows(k0: map<NodeId, NodeKind>, k1: map<NodeId, NodeKind>) {
    forall n :: n in k0 ==> n in k1 && k1[n] == k0[n]
  }

  /** The objects of a render tree exist before any constructor using
      them runs. */
  lemma {:induction false} KidsAllocated(cs: seq<Child>)
    ensures forall e :: e in KidsRaws(cs) ==> allocated(e)
    ensures forall c :: c in KidsComps(cs) ==> allocated(c)
  {
    if cs != [] {
      KidsAllocated(cs[1..]);
    }
  }

  /** The top of the build stack, as a set. */
  function Tops(stack: seq<Component>): set<Component> {
    if stack == [] then {} else {stack[|stack| - 1]}
  }


  /** Sibling subtrees share no render node: each element and component of
      a JSX tree is made for one place. */
  ghost predicate KidsDisjoint(cs: seq<Child>) {
    forall i, j :: 0 <= i < j < |cs| && cs[i].Nested? && cs[j].Nested? ==>
      NodeRaws(cs[i].node) !! NodeRaws(cs[j].node) && NodeComps(cs[i].node) !! NodeComps(cs[j].node)
  }

  /** The raw elements and components of one child's subtree. */
  ghost function ChildRaws(c: Child): set<RawElement> {
    if c.Nested? then NodeRaws(c.node) else {}
  }

  ghost function ChildComps(c: Child): set<Component> {
    if c.Nested? then NodeComps(c.node) else {}
  }

  /** No render node of a subtree has been built. */
  ghost predicate NodePristine(n: RenderNode)
    reads NodeRaws(n)`nodeList, NodeComps(n)`nodeList
  {
    (forall e :: e in NodeRaws(n) ==> e.nodeList == []) && forall c :: c in NodeComps(n) ==> c.nodeList == []
  }

  /** What a node's build and mount need of the host: its placeholder and
      those of its subtree exist, and its list holds existing nodes, none
      twice and none of them its placeholder. */
  ghost predicate Fits(doc: Host, ph: NodeId, holes: set<NodeId>, l: seq<NodeId>)
    reads doc
  {
    && doc.Valid() && ph < doc.next && (forall x :: x in holes ==> x < doc.next)
    && NoDup(l) && ph !in l && forall x :: x in l ==> x < doc.next
  }

  /** From `p0` to `p1`, every node older than `n` other than the `holes`
      is attached exactly when it was. */
  ghost predicate Kept(p0: map<NodeId, NodeId>, p1: map<NodeId, NodeId>, n: nat, holes: set<NodeId>) {
    forall x: NodeId :: x < n && x !in holes ==> (x in p1 <==> x in p0)
  }

  /** From `t0` to `t1`, only `render` calls on the given components were
      logged. */
  ghost predicate RendersOnly(t0: seq<Toggle>, t1: seq<Toggle>, comps: set<Component>) {
    |t0| <= |t1| && t1[..|t0|] == t0 && forall k :: |t0| <= k < |t1| ==> t1[k].show && t1[k].node in comps
  }

  lemma RendersOnlyTrans(t0: seq<Toggle>, t1: seq<Toggle>, t2: seq<Toggle>, c0: set<Component>, c1: set<Component>)
    requires RendersOnly(t0, t1, c0) && RendersOnly(t1, t2, c1)
    ensures RendersOnly(t0, t2, c0 + c1)
  {
    assert t2[..|t0|] == t2[..|t1|][..|t0|];
  }

  /** `s` ends with `t`. */
  ghost predicate EndsWith<T>(s: seq<T>, t: seq<T>) {
    |t| <= |s| && s[|s| - |t|..] == t
  }

  lemma EndsWithAppended<T>(s: seq<T>, t: seq<T>)
    ensures EndsWith(s + t, t)
  {
    assert (s + t)[|s + t| - |t|..] == t;
  }

  /** `host.append(...l)` seen from a mount: the nodes of `l` end the host's
      children, in order, and no other node changes attachment. */
  method AppendList(doc: Host, h: NodeId, l: seq<NodeId>)
    requires doc.Valid() && h < doc.next && NoDup(l) && forall x :: x in l ==> x < doc.next
    modifies doc`parent, doc`kids
    ensures doc.Valid()
    ensures forall x :: x in l ==> x in doc.parent && doc.parent[x] == h
    ensures forall x :: x !in l ==> (x in doc.parent <==> x in old(doc.parent))
    ensures EndsWith(doc.Kids(h), l)
  {
    doc.Append(h, l);
    EndsWithAppended(Except(old(doc.Kids(h)), Elems(l)), l);
  }

  /** `appendChild` of a placeholder, stated as what `init` needs of it. */
  method AppendOne(doc: Host, h: NodeId, x: NodeId)
    requires doc.Valid() && h < doc.next && x < doc.next
    modifies doc`parent, doc`kids
    ensures doc.Valid() && doc.parent == old(doc.parent)[x := h]
    ensures EndsWith(doc.Kids(h), [x])
  {
    doc.AppendChild(h, x);
    EndsWithAppended(Except(old(doc.Kids(h)), {x}), [x]);
  }

  /** A first mount ends with exactly one of the new element `x` and the
      placeholder attached: the placeholder is older than the build and
      not below it, so the build leaves it detached, and `init` then
      attaches one of the two. */
  lemma OneAttached(p0: map<NodeId, NodeId>, p1: map<NodeId, NodeId>, p2: map<NodeId, NodeId>, n: nat,
                    holes: set<NodeId>, ph: NodeId, x: NodeId, show: bool)
    requires ph < n && ph !in holes && ph !in p0 && Kept(p0, p1, n, holes) && x !in p1 && x != ph
    requires show ==> x in p2 && (ph in p2 <==> ph in p1)
    requires !show ==> ph in p2 && (x in p2 <==> x in p1)
    ensures show ==> x in p2 && ph !in p2
    ensures !show ==> x !in p2 && ph in p2
  {
  }

  /** A mount that attaches or detaches nothing but the new list and the
      placeholder keeps a build's `Kept`, the placeholder aside. */
  lemma KeptMount(p0: map<NodeId, NodeId>, p1: map<NodeId, NodeId>, p2: map<NodeId, NodeId>, n: nat,
                  holes: set<NodeId>, ph: NodeId, l: seq<NodeId>)
    requires Kept(p0, p1, n, holes) && forall x :: x in l ==> n <= x
    requires forall x :: x !in l && x != ph ==> (x in p2 <==> x in p1)
    ensures Kept(p0, p2, n, {ph} + holes)
  {
  }

  /** With a one-node list, which of the node and the placeholder is
      attached decides `Shown`, `Hidden` and `Exclusive`. */
  lemma ExclusiveOne(doc: Host, l: seq<NodeId>, ph: NodeId)
    requires |l| == 1
    ensures Shown(doc, l, ph) <==> doc.Attached(l[0]) && !doc.Attached(ph)
    ensures Hidden(doc, l, ph) <==> !doc.Attached(l[0]) && doc.Attached(ph)
  {
    assert forall n :: n in l <==> n == l[0];
  }

  /** What `init` throws once the node is built: calling a `d-if` value
      that is not a function, or appending to a host it was never loaded
      at. */
  function MountOutcome(d: Decision, host: Option<NodeId>): (r: Outcome<Error>)
    ensures r.Ok? <==> d != NotCallable && host.Some?
    ensures d == NotCallable ==> r == Fail(NotAFunction)
  {
    if d == NotCallable then Fail(NotAFunction) else if host.None? then Fail(NoHost) else Ok
  }

  /** `child.loadAt(h).init()` for a child render node that was never
      built. */
  method MountChild(n: RenderNode, h: NodeId, doc: Host, ctx: Context<Component>, rt: Runtime) returns (r: Outcome<Error>)
    requires doc.Valid() && h < doc.next && NodeWF(n) && NodePristine(n)
    requires forall x :: x in NodeHoles(n) ==> x < doc.next
    requires forall c :: c in ctx.parent ==> c !in NodeComps(n)
    modifies NodeRaws(n), NodeComps(n), NodeSignals(n)`subs, doc, ctx`parent, ctx`current, rt`pending, rt`toggles
    modifies Tops(ctx.parent)`childComponents
    decreases NodeHeight(n), 5
    ensures doc.Valid() && old(doc.next) <= doc.next && Grows(old(doc.kind), doc.kind)
    ensures RendersOnly(old(rt.toggles), rt.toggles, NodeComps(n))
    ensures r.Ok? ==> ctx.parent == old(ctx.parent) && Kept(old(doc.parent), doc.parent, old(doc.next), NodeHoles(n))
  {
    match n
    case Raw(e) =>
      e.LoadAt(h);
      assert e.WF() && e.placeholder in NodeHoles(n) && e in NodeRaws(n);
      assert Fits(doc, e.placeholder, e.holes, e.nodeList);
      assert forall c :: c in ctx.parent ==> c !in e.comps;
      assert e.BelowPristine();
      r := e.Init(doc, ctx, rt);
    case Comp(c) =>
      c.LoadAt(h);
      assert c.WF() && c.placeholder in NodeHoles(n) && c in NodeComps(n);
      assert Fits(doc, c.placeholder, c.holes, c.nodeList);
      assert c !in ctx.parent;
      assert forall x :: x in ctx.parent ==> x !in c.comps;
      assert c.BelowPristine();
      r := c.Init(doc, ctx, rt);
  }

  /** `.build()` on the render node a component function returned, which
      was never built: its list is then one new, unattached element. */
  method BuildChild(n: RenderNode, doc: Host, ctx: Context<Component>, rt: Runtime) returns (r: Outcome<Error>)
    requires doc.Valid() && NodeWF(n) && NodePristine(n)
    requires forall x :: x in NodeHoles(n) ==> x < doc.next
    requires forall c :: c in ctx.parent ==> c !in NodeComps(n)
    modifies NodeRaws(n), NodeComps(n), NodeSignals(n)`subs, doc, ctx`parent, ctx`current, rt`pending, rt`toggles
    modifies Tops(ctx.parent)`childComponents
    decreases NodeHeight(n), 3
    ensures doc.Valid() && old(doc.next) <= doc.next && Grows(old(doc.kind), doc.kind)
    ensures RendersOnly(old(rt.toggles), rt.toggles, NodeComps(n))
    ensures r.Ok? ==>
      && ctx.parent == old(ctx.parent) && Kept(old(doc.parent), doc.parent, old(doc.next), NodeHoles(n))
      && |NodeList(n)| == 1 && old(doc.next) <= NodeList(n)[0] < doc.next && !doc.Attached(NodeList(n)[0])
  {
    match n
    case Raw(e) =>
      assert e.WF() && e.placeholder in NodeHoles(n) && e in NodeRaws(n);
      r := e.Build(doc, ctx, rt);
    case Comp(c) =>
      assert c.WF() && c.placeholder in NodeHoles(n) && c in NodeComps(n);
      r := c.Build(doc, ctx, rt);
  }

  /** A host element with attributes and children (`RawElement`). */
  class RawElement {
    const tag: string
    const attributes: seq<Attr>
    const children: seq<Child>
    const placeholder: NodeId
    /** The subtree below: its height, its raw elements and components,
        their placeholders, and the signals it binds. */
    ghost const height: nat
    ghost const raws: set<RawElement>
    ghost const comps: set<Component>
    ghost const holes: set<NodeId>
    ghost const signals: set<Signal>
    var nodeList: seq<NodeId>
    var host: Option<NodeId>

    ghost predicate WF()
      decreases height, 1
    {
      && this !in raws && placeholder !in holes && UniqueKeys(attributes) && KidsDisjoint(children)
      && AttrSignals(attributes) <= signals
      && (forall i :: 0 <= i < |children| && children[i].Reactive? ==> children[i].sig in signals)
      && (forall i :: 0 <= i < |children| && children[i].Nested? ==>
            Within(children[i].node, height, raws, comps, holes, signals))
    }

    /** No render node below this one has been built. */
    ghost predicate BelowPristine()
      reads raws`nodeList, comps`nodeList
    {
      (forall e :: e in raws ==> e.nodeList == []) && forall c :: c in comps ==> c.nodeList == []
    }

    /** Where `init` leaves a node that did not throw: it had a host and a
        callable `d-if` (or none), and the host's children end with its
        list when that shows the content and with its placeholder
        otherwise. */
    ghost predicate Mounted(doc: Host)
      reads this, doc, AttrSignals(attributes)
    {
      && host.Some? && IfDecision(attributes) != NotCallable
      && (IfDecision(attributes) == ShowContent ==> EndsWith(doc.Kids(host.value), nodeList))
      && (IfDecision(attributes) == ShowPlaceholder ==> EndsWith(doc.Kids(host.value), [placeholder]))
    }

    /** What `build` and `init` need: a well-formed subtree that fits the
        host, none of whose components is being built. */
    ghost predicate Ready(doc: Host, ctx: Context<Component>)
      reads this`nodeList, doc, ctx`parent
    {
      WF() && Fits(doc, placeholder, holes, nodeList) && forall c :: c in ctx.parent ==> c !in comps
    }

    /** `new RawElement(tag, attributes, children)`: its placeholder is a
        new comment node. */
    constructor (doc: Host, tag: string, attributes: seq<Attr>, children: seq<Child>)
      requires doc.Valid() && UniqueKeys(attributes) && KidsDisjoint(children)
      requires forall i :: 0 <= i < |children| && children[i].Nested? ==> NodeWF(children[i].node)
      requires forall x :: x in KidsHoles(children) ==> x < doc.next
      modifies doc`next, doc`kind
      ensures WF() && nodeList == [] && host == None
      ensures this.tag == tag && this.attributes == attributes && this.children == children
      ensures placeholder == old(doc.next) && doc.next == placeholder + 1
      ensures doc.kind == old(doc.kind)[placeholder := CommentNode] && doc.Valid()
      ensures raws == KidsRaws(children) && comps == KidsComps(children) && holes == KidsHoles(children)
      ensures signals == AttrSignals(attributes) + KidsSignals(children)
    {
      KidsAllocated(children);
      var ph := doc.CreateComment();
      this.tag, this.attributes, this.children, placeholder := tag, attributes, children, ph;
      height := 1 + KidsHeight(children);
      raws, comps, holes := KidsRaws(children), KidsComps(children), KidsHoles(children);
      signals := AttrSignals(attributes) + KidsSignals(children);
      nodeList, host := [], None;
      new;
      forall i | 0 <= i < |children|
        ensures children[i].Reactive? ==> children[i].sig in signals
        ensures children[i].Nested? ==> Within(children[i].node, height, raws, comps, holes, signals)
      {
        KidsCover(children, i);
      }
    }

    /** `loadAt(h)`: the element to mount into. */
    method LoadAt(h: NodeId)
      modifies this`host
      ensures host == Some(h)
    {
      host := Some(h);
    }

    /** The first half of `build()`: a new element, added to this node's
        list, with its attributes bound. */
    method MakeElement(doc: Host) returns (cur: NodeId)
      requires doc.Valid() && WF()
      modifies this`nodeList, doc`next, doc`kind, doc`attrs, doc`listeners, AttrSignals(attributes)`subs
      ensures doc.Valid() && cur == old(doc.next) && doc.next == cur + 1
      ensures doc.kind == old(doc.kind)[cur := ElementNode(tag)] && !doc.Attached(cur)
      ensures doc.parent == old(doc.parent) && doc.kids == old(doc.kids)
      ensures nodeList == old(nodeList) + [cur]
      ensures doc.attrs == SetLiterals(old(doc.attrs), cur, attributes)
      ensures doc.listeners == old(doc.listeners) + Listeners(cur, attributes)
      ensures forall s :: s in AttrSignals(attributes) ==> s.subs == old(s.subs) + AttrSubs(cur, attributes, s)
    {
      cur := doc.CreateElement(tag);
      nodeList := nodeList + [cur];
      BindAttributes(doc, cur, attributes);
    }

    /** `build()`: a new element with its attributes bound and its children
        mounted into it, added to this node's list. Below a subtree that
        was never built, the new element stays unattached, and no node
        other than the subtree's placeholders and the nodes the build
        creates changes attachment. A second build makes a second element. */
    method Build(doc: Host, ctx: Context<Component>, rt: Runtime) returns (r: Outcome<Error>)
      requires Ready(doc, ctx) && BelowPristine()
      modifies this`nodeList, raws, comps, signals`subs, doc, ctx`parent, ctx`current, rt`pending, rt`toggles
      modifies Tops(ctx.parent)`childComponents
      decreases height, 2
      ensures doc.Valid() && old(doc.next) < doc.next && Grows(old(doc.kind), doc.kind)
      ensures old(doc.next) in doc.kind && doc.kind[old(doc.next)] == ElementNode(tag)
      ensures nodeList == old(nodeList) + [old(doc.next)]
      ensures RendersOnly(old(rt.toggles), rt.toggles, comps)
      ensures r.Ok? ==>
        && ctx.parent == old(ctx.parent) && !doc.Attached(old(doc.next))
        && Kept(old(doc.parent), doc.parent, old(doc.next), holes)
    {
      var cur := MakeElement(doc);
      r := MountChildren(cur, doc, ctx, rt);
    }

    /** The loop of `build()` over the children, each mounted into `cur`;
        the first child that throws ends it. */
    method MountChildren(cur: NodeId, doc: Host, ctx: Context<Component>, rt: Runtime) returns (r: Outcome<Error>)
      requires WF() && doc.Valid() && BelowPristine() && cur < doc.next
      requires forall x :: x in holes ==> x < doc.next
      requires forall c :: c in ctx.parent ==> c !in comps
      modifies raws, comps, signals`subs, doc, ctx`parent, ctx`current, rt`pending, rt`toggles
      modifies Tops(ctx.parent)`childComponents
      decreases height, 1
      ensures doc.Valid() && old(doc.next) <= doc.next && Grows(old(doc.kind), doc.kind)
      ensures RendersOnly(old(rt.toggles), rt.toggles, comps)
      ensures r.Ok? ==> ctx.parent == old(ctx.parent) && Kept(old(doc.parent), doc.parent, old(doc.next), holes)
    {
      for i := 0 to |children|
        invariant doc.Valid() && old(doc.next) <= doc.next && Grows(old(doc.kind), doc.kind)
        invariant ctx.parent == old(ctx.parent)
        invariant RendersOnly(old(rt.toggles), rt.toggles, comps)
        invariant Kept(old(doc.parent), doc.parent, old(doc.next), holes)
        invariant forall j :: i <= j < |children| && children[j].Nested? ==> NodePristine(children[j].node)
      {
        assert children[i].Nested? ==> Within(children[i].node, height, raws, comps, holes, signals);
        ghost var t := rt.toggles;
        r := MountKid(i, cur, doc, ctx, rt);
        if r.Fail? {
          RendersOnlyTrans(old(rt.toggles), t, rt.toggles, comps, ChildComps(children[i]));
          return;
        }
        RendersOnlyTrans(old(rt.toggles), t, rt.toggles, comps, ChildComps(children[i]));
      }
      r := Ok;
    }

    /** One step of that loop: a signal getter becomes a reactive text
        child, a render node is loaded at `cur` and initialised, and any
        other value becomes a text node. */
    method MountKid(i: nat, cur: NodeId, doc: Host, ctx: Context<Component>, rt: Runtime) returns (r: Outcome<Error>)
      requires i < |children| && WF() && doc.Valid() && cur < doc.next
      requires forall x :: x in holes ==> x < doc.next
      requires forall c :: c in ctx.parent ==> c !in comps
      requires children[i].Nested? ==> NodePristine(children[i].node)
      modifies ChildRaws(children[i]), ChildComps(children[i]), signals`subs, doc, ctx`parent, ctx`current
      modifies rt`pending, rt`toggles, Tops(ctx.parent)`childComponents
      decreases height, 0
      ensures doc.Valid() && old(doc.next) <= doc.next && Grows(old(doc.kind), doc.kind)
      ensures RendersOnly(old(rt.toggles), rt.toggles, ChildComps(children[i]))
      ensures r.Ok? ==> ctx.parent == old(ctx.parent) && Kept(old(doc.parent), doc.parent, old(doc.next), holes)
    {
      match children[i]
      case Reactive(s) =>
        var _ := BindReactivityChild(doc, cur, s);
        r := Ok;
      case Nested(n) =>
        assert Within(n, height, raws, comps, holes, signals);
        r := MountChild(n, cur, doc, ctx, rt);
      case Static(v) =>
        var t := doc.CreateText(v);
        doc.AppendChild(cur, t);
        r := Ok;
    }

    /** `init()`: builds when the list is empty, then reads `d-if`; with
        no `d-if` or a truthy one the list is appended to the host,
        otherwise the placeholder is, and `unrender` is not called. A node
        mounted for the first time ends with exactly one of its element and
        its placeholder attached, the element exactly when `d-if` shows
        it. */
    method Init(doc: Host, ctx: Context<Component>, rt: Runtime) returns (r: Outcome<Error>)
      requires Ready(doc, ctx) && (nodeList == [] ==> BelowPristine()) && (host.Some? ==> host.value < doc.next)
      modifies this`nodeList, raws, comps, signals`subs, doc, ctx`parent, ctx`current, rt`pending, rt`toggles
      modifies Tops(ctx.parent)`childComponents
      decreases height, 4
      ensures doc.Valid() && old(doc.next) <= doc.next && Grows(old(doc.kind), doc.kind)
      ensures RendersOnly(old(rt.toggles), rt.toggles, comps)
      ensures old(nodeList) != [] ==>
        && r == MountOutcome(IfDecision(attributes), host)
        && unchanged(this, ctx, rt) && unchanged(raws, comps, signals) && unchanged(Tops(old(ctx.parent)))
        && unchanged(doc`kind, doc`attrs, doc`listeners, doc`next)
      ensures old(nodeList) != [] && r.Fail? ==> unchanged(doc)
      ensures old(nodeList) != [] && r.Ok? && IfDecision(attributes) == ShowContent ==>
        && (forall x :: x in nodeList ==> x in doc.parent && doc.parent[x] == host.value)
        && (forall x :: x !in nodeList ==> (x in doc.parent <==> x in old(doc.parent)))
      ensures old(nodeList) != [] && r.Ok? && IfDecision(attributes) == ShowPlaceholder ==>
        doc.parent == old(doc.parent)[placeholder := host.value]
      ensures old(nodeList) == [] ==>
        && |nodeList| == 1 && old(doc.next) <= nodeList[0] < doc.next
        && nodeList[0] in doc.kind && doc.kind[nodeList[0]] == ElementNode(tag)
      ensures r.Ok? ==> ctx.parent == old(ctx.parent) && Mounted(doc)
      ensures r.Ok? && old(nodeList) == [] ==> Kept(old(doc.parent), doc.parent, old(doc.next), {placeholder} + holes)
      ensures r.Ok? && old(nodeList == [] && !doc.Attached(placeholder)) ==>
        && Exclusive(doc, nodeList, placeholder)
        && (Shown(doc, nodeList, placeholder) <==> IfDecision(attributes) == ShowContent)
    {
      if nodeList == [] {
        r := FirstInit(doc, ctx, rt);
      } else {
        r := Attach(doc);
      }
    }

    /** `init()` on a node that was never built: the build, then the
        `d-if` decision. */
    method FirstInit(doc: Host, ctx: Context<Component>, rt: Runtime) returns (r: Outcome<Error>)
      requires Ready(doc, ctx) && nodeList == [] && BelowPristine() && (host.Some? ==> host.value < doc.next)
      modifies this`nodeList, raws, comps, signals`subs, doc, ctx`parent, ctx`current, rt`pending, rt`toggles
      modifies Tops(ctx.parent)`childComponents
      decreases height, 3
      ensures doc.Valid() && old(doc.next) <= doc.next && Grows(old(doc.kind), doc.kind)
      ensures RendersOnly(old(rt.toggles), rt.toggles, comps)
      ensures |nodeList| == 1 && old(doc.next) <= nodeList[0] < doc.next
      ensures nodeList[0] in doc.kind && doc.kind[nodeList[0]] == ElementNode(tag)
      ensures r.Ok? ==> ctx.parent == old(ctx.parent) && Mounted(doc)
      ensures r.Ok? ==> Kept(old(doc.parent), doc.parent, old(doc.next), {placeholder} + holes)
      ensures r.Ok? && old(!doc.Attached(placeholder)) ==>
        && Exclusive(doc, nodeList, placeholder)
        && (Shown(doc, nodeList, placeholder) <==> IfDecision(attributes) == ShowContent)
    {
      r := Build(doc, ctx, rt);
      if r.Fail? {
        return;
      }
      r := FirstAttach(doc, old(doc.parent), old(doc.next));
    }

    /** `init()` right after the first build, which started from the
        attachments `p0` and created only nodes from `n` on. */
    method FirstAttach(doc: Host, ghost p0: map<NodeId, NodeId>, ghost n: nat) returns (r: Outcome<Error>)
      requires Fits(doc, placeholder, {}, nodeList) && (host.Some? ==> host.value < doc.next)
      requires |nodeList| == 1 && n <= nodeList[0] && !doc.Attached(nodeList[0])
      requires placeholder < n && placeholder !in holes && Kept(p0, doc.parent, n, holes)
      modifies doc`parent, doc`kids
      ensures doc.Valid()
      ensures r.Ok? ==> Mounted(doc) && Kept(p0, doc.parent, n, {placeholder} + holes)
      ensures r.Ok? && placeholder !in p0 ==>
        && Exclusive(doc, nodeList, placeholder)
        && (Shown(doc, nodeList, placeholder) <==> IfDecision(attributes) == ShowContent)
    {
      ghost var p1 := doc.parent;
      r := Attach(doc);
      if r.Ok? {
        KeptMount(p0, p1, doc.parent, n, holes, placeholder, nodeList);
      }
      if r.Ok? && placeholder !in p0 {
        OneAttached(p0, p1, doc.parent, n, holes, placeholder, nodeList[0], IfDecision(attributes) == ShowContent);
        ExclusiveOne(doc, nodeList, placeholder);
      }
    }

    /** The second half of `init()`: the `d-if` decision, then the append
        of the list or of the placeholder to the host. */
    method Attach(doc: Host) returns (r: Outcome<Error>)
      requires Fits(doc, placeholder, {}, nodeList) && (host.Some? ==> host.value < doc.next)
      modifies doc`parent, doc`kids
      ensures doc.Valid() && r == MountOutcome(IfDecision(attributes), host)
      ensures r.Fail? ==> unchanged(doc)
      ensures r.Ok? ==> Mounted(doc)
      ensures r.Ok? ==> forall x :: x !in nodeList && x != placeholder ==> (x in doc.parent <==> x in old(doc.parent))
      ensures r.Ok? && IfDecision(attributes) == ShowContent ==>
        && (forall x :: x in nodeList ==> x in doc.parent && doc.parent[x] == host.value)
        && (forall x :: x !in nodeList ==> (x in doc.parent <==> x in old(doc.parent)))
      ensures r.Ok? && IfDecision(attributes) == ShowPlaceholder ==> doc.parent == old(doc.parent)[placeholder := host.value]
    {
      var d := IfDecision(attributes);
      if d == NotCallable {
        return Fail(NotAFunction);
      }
      if host.None? {
        return Fail(NoHost);
      }
      var h := host.value;
      if d == ShowContent {
        AppendList(doc, h, nodeList);
      } else {
        AppendOne(doc, h, placeholder);
      }
      assert forall o :: o in AttrSignals(attributes) ==> unchanged(o);
      assert IfDecision(attributes) == d;
      r := Ok;
    }
  }

  /** A component function with its attributes (`Component`). */
  class Component {
    const body: Body
    const attributes: seq<Attr>
    const placeholder: NodeId
    const id: nat
    /** The subtree below: its height, its raw elements and components,
        their placeholders, and the signals it binds. */
    ghost const height: nat
    ghost const raws: set<RawElement>
    ghost const comps: set<Component>
    ghost const holes: set<NodeId>
    ghost const signals: set<Signal>
    var nodeList: seq<NodeId>
    var parent: Option<Component>
    var childComponents: seq<Component>
    var host: Option<NodeId>
    var runOnload: Option<Hook>
    var runUnload: Option<Hook>

    ghost predicate WF()
      decreases height, 1
    {
      && this !in comps && placeholder !in holes && UniqueKeys(attributes)
      && AttrSignals(attributes) <= signals
      && Within(body.result, height, raws, comps, holes, signals)
    }

    /** No render node below this one has been built. */
    ghost predicate BelowPristine()
      reads raws`nodeList, comps`nodeList
    {
      (forall e :: e in raws ==> e.nodeList == []) && forall c :: c in comps ==> c.nodeList == []
    }

    /** The signal the `d-if` attribute holds, if any, has this
        component's `d-if` subscriber last in its queue. */
    ghost predicate IfSubscribed()
      reads AttrSignals(attributes)
    {
      forall s :: s in AttrSignals(attributes) && GetAttributeValue(attributes, "d-if") == Some(Getter(s)) ==>
        s.subs != [] && s.subs[|s.subs| - 1] == IfToggle(this)
    }

    /** Where `init` leaves a built component that did not throw: it had
        a host and a callable `d-if` (or none); when that shows the
        content, the host's children end with the list and the last
        toggle and the last deferred hook are this component's `render`;
        otherwise the host's children end with the placeholder. */
    ghost predicate Mounted(doc: Host, rt: Runtime)
      reads this, doc, rt, AttrSignals(attributes)
    {
      && host.Some? && IfDecision(attributes) != NotCallable
      && (IfDecision(attributes) == ShowContent ==>
           && EndsWith(doc.Kids(host.value), nodeList)
           && rt.toggles != [] && rt.toggles[|rt.toggles| - 1] == Toggle(this, true)
           && EndsWith(rt.pending, Queued(runOnload)))
      && (IfDecision(attributes) == ShowPlaceholder ==> EndsWith(doc.Kids(host.value), [placeholder]))
    }

    /** What `build` and `init` need: a well-formed subtree that fits the
        host, none of whose components, this one included, is being
        built. */
    ghost predicate Ready(doc: Host, ctx: Context<Component>)
      reads this`nodeList, doc, ctx`parent
    {
      && WF() && Fits(doc, placeholder, holes, nodeList)
      && this !in ctx.parent && forall c :: c in ctx.parent ==> c !in comps
    }

    /** `new Component(func, attributes, children)`: a new comment node for
        its placeholder, then the next id. */
    constructor (doc: Host, ctx: Context<Component>, body: Body, attributes: seq<Attr>)
      requires doc.Valid() && ctx.Valid() && UniqueKeys(attributes) && NodeWF(body.result)
      requires forall x :: x in NodeHoles(body.result) ==> x < doc.next
      modifies doc`next, doc`kind, ctx`id, ctx`issued
      ensures WF() && ctx.Valid()
      ensures this.body == body && this.attributes == attributes
      ensures id == old(ctx.id) + 1 && ctx.id == id && ctx.issued == old(ctx.issued) + [id] && id !in old(ctx.issued)
      ensures placeholder == old(doc.next) && doc.next == placeholder + 1
      ensures doc.kind == old(doc.kind)[placeholder := CommentNode] && doc.Valid()
      ensures nodeList == [] && parent == None && childComponents == [] && host == None
      ensures runOnload == None && runUnload == None
      ensures raws == NodeRaws(body.result) && comps == NodeComps(body.result) && holes == NodeHoles(body.result)
      ensures signals == AttrSignals(attributes) + NodeSignals(body.result)
    {
      var ph := doc.CreateComment();
      var i := ctx.GetId();
      this.body, this.attributes, placeholder, id := body, attributes, ph, i;
      height := NodeHeight(body.result) + 1;
      raws, comps, holes := NodeRaws(body.result), NodeComps(body.result), NodeHoles(body.result);
      signals := AttrSignals(attributes) + NodeSignals(body.result);
      nodeList, parent, childComponents, host := [], None, [], None;
      runOnload, runUnload := None, None;
    }

    /** `loadAt(h)`: the element to mount into. */
    method LoadAt(h: NodeId)
      modifies this`host
      ensures host == Some(h)
    {
      host := Some(h);
    }

    /** `addChildComponent(child)`. */
    method AddChildComponent(child: Component)
      modifies this`childComponents
      ensures childComponents == old(childComponents) + [child]
    {
      childComponents := childComponents + [child];
    }

    /** The `onload`/`unload` calls of the component function, made while
        this component is current. */
    method RunHooks(ctx: Context<Component>)
      requires ctx.current == Some(this)
      modifies this`runOnload, this`runUnload
      ensures runOnload == LastHook(body.hooks, true, old(runOnload))
      ensures runUnload == LastHook(body.hooks, false, old(runUnload))
    {
      for k := 0 to |body.hooks|
        invariant runOnload == LastHook(body.hooks[..k], true, old(runOnload))
        invariant runUnload == LastHook(body.hooks[..k], false, old(runUnload))
      {
        assert body.hooks[..k + 1][..k] == body.hooks[..k];
        match body.hooks[k]
        case OnloadCall(h) => Onload(ctx, h);
        case UnloadCall(h) => Unload(ctx, h);
      }
      assert body.hooks[..|body.hooks|] == body.hooks;
    }

    /** The directive pass of `build()`: `bindDirective` for every
        attribute that is a registered directive holding a getter. */
    method BindDirectives()
      modifies AttrSignals(attributes)`subs
      ensures forall s :: s in AttrSignals(attributes) ==> s.subs == old(s.subs) + DirSubs(attributes, s, this)
    {
      for i := 0 to |attributes|
        invariant forall s :: s in AttrSignals(attributes) ==> s.subs == old(s.subs) + DirSubs(attributes[..i], s, this)
      {
        var a := attributes[i];
        assert attributes[..i + 1][..i] == attributes[..i];
        if IsDefaultDirective(a.key) && IsSignalGetter(a.value) {
          assert a.value.sig in AttrSignals(attributes);
          var _ := BindDirective(this, a.key, a.value);
        }
      }
      assert attributes[..|attributes|] == attributes;
    }

    /** `render()`: shows the content, then defers `runOnload` when set. */
    method Render(doc: Host, rt: Runtime) returns (r: Outcome<Error>)
      requires doc.Valid() && Toggleable(doc, nodeList, placeholder)
      modifies doc`parent, doc`kids, rt`pending, rt`toggles
      ensures doc.Valid()
      ensures rt.toggles == old(rt.toggles) + [Toggle(this, true)]
      ensures rt.pending == old(rt.pending) + if r.Ok? then Queued(runOnload) else []
      ensures old(doc.Attached(nodeList[0])) ==> r == Ok && doc.parent == old(doc.parent) && doc.kids == old(doc.kids)
      ensures old(Exclusive(doc, nodeList, placeholder)) ==> r == Ok && Shown(doc, nodeList, placeholder)
      ensures OnlyToggles(old(doc.parent), doc.parent, nodeList, placeholder)
    {
      rt.toggles := rt.toggles + [Toggle(this, true)];
      r := DirectiveIf(doc, nodeList, placeholder, true);
      if r.Ok? && runOnload.Some? {
        rt.pending := rt.pending + [runOnload.value];
      }
    }

    /** `unrender()`: hides the content, then defers `runUnload` when set. */
    method Unrender(doc: Host, rt: Runtime) returns (r: Outcome<Error>)
      requires doc.Valid() && Toggleable(doc, nodeList, placeholder)
      modifies doc`parent, doc`kids, rt`pending, rt`toggles
      ensures doc.Valid() && r == Ok
      ensures rt.toggles == old(rt.toggles) + [Toggle(this, false)]
      ensures rt.pending == old(rt.pending) + Queued(runUnload)
      ensures !old(doc.Attached(nodeList[0])) ==> doc.parent == old(doc.parent) && doc.kids == old(doc.kids)
      ensures old(Exclusive(doc, nodeList, placeholder)) ==> Hidden(doc, nodeList, placeholder)
      ensures OnlyToggles(old(doc.parent), doc.parent, nodeList, placeholder)
    {
      rt.toggles := rt.toggles + [Toggle(this, false)];
      r := DirectiveIf(doc, nodeList, placeholder, false);
      if runUnload.Some? {
        rt.pending := rt.pending + [runUnload.value];
      }
    }

    /** The start of a build: the component is linked under the component
        being built, if any, goes on top of the stack and becomes the
        current component while its function runs. */
    method Enter(ctx: Context<Component>)
      modifies this`parent, this`runOnload, this`runUnload, ctx`parent, ctx`current
      modifies Tops(ctx.parent)`childComponents
      ensures ctx.parent == old(ctx.parent) + [this] && ctx.current == Some(this)
      ensures old(ctx.parent) != [] ==>
        var top := old(ctx.parent)[|old(ctx.parent)| - 1];
        parent == Some(top) && top.childComponents == old(top.childComponents) + [this]
      ensures old(ctx.parent) == [] ==> parent == old(parent)
      ensures runOnload == LastHook(body.hooks, true, old(runOnload))
      ensures runUnload == LastHook(body.hooks, false, old(runUnload))
    {
      if ctx.parent != [] {
        var top := ctx.parent[|ctx.parent| - 1];
        parent := Some(top);
        top.AddChildComponent(this);
      }
      ctx.Push(this);
      ctx.current := Some(this);
      RunHooks(ctx);
    }

    /** The end of a build: the component takes the list its function's
        result built, clears `current`, leaves the stack and binds its
        directive getters. */
    method Leave(ctx: Context<Component>)
      requires WF()
      modifies this`nodeList, ctx`current, ctx`parent, AttrSignals(attributes)`subs
      ensures nodeList == old(NodeList(body.result)) && ctx.current == None
      ensures old(ctx.parent) != [] ==> ctx.parent == old(ctx.parent)[..|old(ctx.parent)| - 1]
      ensures forall s :: s in AttrSignals(attributes) ==> s.subs == old(s.subs) + DirSubs(attributes, s, this)
      ensures IfSubscribed()
    {
      nodeList := NodeList(body.result);
      ctx.current := None;
      ctx.Pop();
      BindDirectives();
      forall s | s in AttrSignals(attributes) ensures DirSubs(attributes, s, this) ==
        if GetAttributeValue(attributes, "d-if") == Some(Getter(s)) then [IfToggle(this)] else [] {
        DirSubsOfRecord(attributes, s, this);
      }
    }

    /** `build()`: nothing when already built. Otherwise the component is
        linked under the component being built, if any, becomes the top of
        the stack and the current component while its function runs and
        its result is built, takes the result's list, clears `current`,
        leaves the stack, and queues its `d-if` subscriber last. */
    method Build(doc: Host, ctx: Context<Component>, rt: Runtime) returns (r: Outcome<Error>)
      requires Ready(doc, ctx) && (nodeList == [] ==> BelowPristine())
      modifies this, raws, comps, signals`subs, doc, ctx`parent, ctx`current, rt`pending, rt`toggles
      modifies Tops(ctx.parent)`childComponents
      decreases height, 2
      ensures doc.Valid() && old(doc.next) <= doc.next && Grows(old(doc.kind), doc.kind)
      ensures host == old(host) && RendersOnly(old(rt.toggles), rt.toggles, comps)
      ensures old(nodeList) != [] ==>
        && r == Ok && unchanged(this, doc, ctx, rt) && unchanged(raws, comps, signals)
        && unchanged(Tops(old(ctx.parent)))
      ensures old(nodeList) == [] && old(ctx.parent) != [] ==>
        var top := old(ctx.parent)[|old(ctx.parent)| - 1];
        parent == Some(top) && top.childComponents == old(top.childComponents) + [this]
      ensures old(nodeList) == [] && old(ctx.parent) == [] ==> parent == old(parent)
      ensures old(nodeList) == [] ==>
        && runOnload == LastHook(body.hooks, true, old(runOnload))
        && runUnload == LastHook(body.hooks, false, old(runUnload))
      ensures old(nodeList) == [] && r.Ok? ==>
        && ctx.current == None && ctx.parent == old(ctx.parent)
        && |nodeList| == 1 && old(doc.next) <= nodeList[0] < doc.next && !doc.Attached(nodeList[0])
        && Kept(old(doc.parent), doc.parent, old(doc.next), holes)
        && IfSubscribed()
    {
      if nodeList != [] {
        return Ok;
      }
      r := Construct(doc, ctx, rt);
    }

    /** The build proper of a component never built. */
    method Construct(doc: Host, ctx: Context<Component>, rt: Runtime) returns (r: Outcome<Error>)
      requires Ready(doc, ctx) && nodeList == [] && BelowPristine()
      modifies this, raws, comps, signals`subs, doc, ctx`parent, ctx`current, rt`pending, rt`toggles
      modifies Tops(ctx.parent)`childComponents
      decreases height, 1
      ensures doc.Valid() && old(doc.next) <= doc.next && Grows(old(doc.kind), doc.kind)
      ensures host == old(host) && RendersOnly(old(rt.toggles), rt.toggles, comps)
      ensures old(ctx.parent) != [] ==>
        var top := old(ctx.parent)[|old(ctx.parent)| - 1];
        parent == Some(top) && top.childComponents == old(top.childComponents) + [this]
      ensures old(ctx.parent) == [] ==> parent == old(parent)
      ensures
        && runOnload == LastHook(body.hooks, true, old(runOnload))
        && runUnload == LastHook(body.hooks, false, old(runUnload))
      ensures r.Ok? ==>
        && ctx.current == None && ctx.parent == old(ctx.parent)
        && |nodeList| == 1 && old(doc.next) <= nodeList[0] < doc.next && !doc.Attached(nodeList[0])
        && Kept(old(doc.parent), doc.parent, old(doc.next), holes)
        && IfSubscribed()
    {
      Enter(ctx);
      r := BuildBody(doc, ctx, rt);
    }

    /** The part of a build that runs with this component on top of the
        stack: its function's result is built, then it leaves the stack. */
    method BuildBody(doc: Host, ctx: Context<Component>, rt: Runtime) returns (r: Outcome<Error>)
      requires WF() && doc.Valid() && BelowPristine() && forall x :: x in holes ==> x < doc.next
      requires ctx.parent != [] && forall c :: c in ctx.parent ==> c !in comps
      modifies this`nodeList, raws, comps, signals`subs, doc, ctx`parent, ctx`current, rt`pending, rt`toggles
      modifies Tops(ctx.parent)`childComponents
      decreases height, 0
      ensures doc.Valid() && old(doc.next) <= doc.next && Grows(old(doc.kind), doc.kind)
      ensures RendersOnly(old(rt.toggles), rt.toggles, comps)
      ensures r.Ok? ==>
        && ctx.current == None && ctx.parent == old(ctx.parent)[..|old(ctx.parent)| - 1]
        && |nodeList| == 1 && old(doc.next) <= nodeList[0] < doc.next && !doc.Attached(nodeList[0])
        && Kept(old(doc.parent), doc.parent, old(doc.next), holes)
        && IfSubscribed()
    {
      assert Within(body.result, height, raws, comps, holes, signals);
      r := BuildChild(body.result, doc, ctx, rt);
      if r.Fail? {
        return;
      }
      Leave(ctx);
      r := Ok;
    }

    /** `init()`: builds when the list is empty, then reads `d-if`; with
        no `d-if` or a truthy one the list is appended to the host and
        `render` runs, otherwise the placeholder is appended and `unrender`
        is not called. */
    method Init(doc: Host, ctx: Context<Component>, rt: Runtime) returns (r: Outcome<Error>)
      requires Ready(doc, ctx) && (nodeList == [] ==> BelowPristine()) && (host.Some? ==> host.value < doc.next)
      modifies this, raws, comps, signals`subs, doc, ctx`parent, ctx`current, rt`pending, rt`toggles
      modifies Tops(ctx.parent)`childComponents
      decreases height, 4
      ensures doc.Valid() && old(doc.next) <= doc.next && Grows(old(doc.kind), doc.kind)
      ensures RendersOnly(old(rt.toggles), rt.toggles, {this} + comps)
      ensures old(nodeList) != [] ==>
        && r == MountOutcome(IfDecision(attributes), host)
        && unchanged(this, ctx) && unchanged(raws, comps, signals) && unchanged(Tops(old(ctx.parent)))
        && unchanged(doc`kind, doc`attrs, doc`listeners, doc`next, rt`fired)
      ensures old(nodeList) != [] && r.Fail? ==> unchanged(doc, rt)
      ensures old(nodeList) != [] && r.Ok? && IfDecision(attributes) == ShowContent ==>
        && (forall x :: x in nodeList ==> x in doc.parent && doc.parent[x] == host.value)
        && (forall x :: x !in nodeList ==> (x in doc.parent <==> x in old(doc.parent)))
        && rt.toggles == old(rt.toggles) + [Toggle(this, true)] && rt.pending == old(rt.pending) + Queued(runOnload)
      ensures old(nodeList) != [] && r.Ok? && IfDecision(attributes) == ShowPlaceholder ==>
        && doc.parent == old(doc.parent)[placeholder := host.value]
        && rt.toggles == old(rt.toggles) && rt.pending == old(rt.pending)
      ensures old(nodeList) == [] && r.Ok? ==> |nodeList| == 1 && old(doc.next) <= nodeList[0] < doc.next
      ensures r.Ok? ==> ctx.parent == old(ctx.parent) && Mounted(doc, rt)
      ensures r.Ok? && IfDecision(attributes) == ShowPlaceholder ==> RendersOnly(old(rt.toggles), rt.toggles, comps)
      ensures r.Ok? && old(nodeList) == [] ==> Kept(old(doc.parent), doc.parent, old(doc.next), {placeholder} + holes)
      ensures r.Ok? && old(nodeList == [] && !doc.Attached(placeholder)) ==>
        && Exclusive(doc, nodeList, placeholder)
        && (Shown(doc, nodeList, placeholder) <==> IfDecision(attributes) == ShowContent)
    {
      if nodeList == [] {
        r := FirstInit(doc, ctx, rt);
      } else {
        ghost var t := rt.toggles;
        r := Attach(doc, rt);
        RendersOnlyTrans(t, t, rt.toggles, {}, {this});
      }
    }

    /** `init()` on a component that was never built: the build, then the
        `d-if` decision. It ends with exactly one of its content and its
        placeholder attached, the content exactly when `d-if` shows it. */
    method FirstInit(doc: Host, ctx: Context<Component>, rt: Runtime) returns (r: Outcome<Error>)
      requires Ready(doc, ctx) && nodeList == [] && BelowPristine() && (host.Some? ==> host.value < doc.next)
      modifies this, raws, comps, signals`subs, doc, ctx`parent, ctx`current, rt`pending, rt`toggles
      modifies Tops(ctx.parent)`childComponents
      decreases height, 3
      ensures doc.Valid() && old(doc.next) <= doc.next && Grows(old(doc.kind), doc.kind)
      ensures RendersOnly(old(rt.toggles), rt.toggles, {this} + comps)
      ensures r.Ok? ==> |nodeList| == 1 && old(doc.next) <= nodeList[0] < doc.next
      ensures r.Ok? ==> ctx.parent == old(ctx.parent) && Mounted(doc, rt)
      ensures r.Ok? && IfDecision(attributes) == ShowPlaceholder ==> RendersOnly(old(rt.toggles), rt.toggles, comps)
      ensures r.Ok? ==> Kept(old(doc.parent), doc.parent, old(doc.next), {placeholder} + holes)
      ensures r.Ok? && old(!doc.Attached(placeholder)) ==>
        && Exclusive(doc, nodeList, placeholder)
        && (Shown(doc, nodeList, placeholder) <==> IfDecision(attributes) == ShowContent)
    {
      r := Build(doc, ctx, rt);
      if r.Fail? {
        return;
      }
      r := FirstAttach(doc, rt, old(doc.parent), old(doc.next), old(rt.toggles));
    }

    /** `init()` right after the first build, which started from the
        attachments `p0`, created only nodes from `n` on and logged only
        `render` calls of the subtree since `t0`. */
    method FirstAttach(doc: Host, rt: Runtime, ghost p0: map<NodeId, NodeId>, ghost n: nat, ghost t0: seq<Toggle>)
      returns (r: Outcome<Error>)
      requires Fits(doc, placeholder, {}, nodeList) && (host.Some? ==> host.value < doc.next)
      requires |nodeList| == 1 && n <= nodeList[0] && !doc.Attached(nodeList[0])
      requires placeholder < n && placeholder !in holes && Kept(p0, doc.parent, n, holes)
      requires RendersOnly(t0, rt.toggles, comps)
      modifies doc`parent, doc`kids, rt`pending, rt`toggles
      ensures doc.Valid() && RendersOnly(t0, rt.toggles, {this} + comps)
      ensures r.Ok? ==> Mounted(doc, rt) && Kept(p0, doc.parent, n, {placeholder} + holes)
      ensures r.Ok? && IfDecision(attributes) == ShowPlaceholder ==> RendersOnly(t0, rt.toggles, comps)
      ensures r.Ok? && placeholder !in p0 ==>
        && Exclusive(doc, nodeList, placeholder)
        && (Shown(doc, nodeList, placeholder) <==> IfDecision(attributes) == ShowContent)
    {
      ghost var p1 := doc.parent;
      ghost var t := rt.toggles;
      r := Attach(doc, rt);
      RendersOnlyTrans(t0, t, rt.toggles, comps, {this});
      if r.Ok? {
        KeptMount(p0, p1, doc.parent, n, holes, placeholder, nodeList);
      }
      if r.Ok? && placeholder !in p0 {
        OneAttached(p0, p1, doc.parent, n, holes, placeholder, nodeList[0], IfDecision(attributes) == ShowContent);
        ExclusiveOne(doc, nodeList, placeholder);
      }
    }

    /** The second half of `init()`: the `d-if` decision, then the append
        of the list, followed by `render`, or of the placeholder. */
    method Attach(doc: Host, rt: Runtime) returns (r: Outcome<Error>)
      requires Fits(doc, placeholder, {}, nodeList) && nodeList != [] && (host.Some? ==> host.value < doc.next)
      modifies doc`parent, doc`kids, rt`pending, rt`toggles
      ensures doc.Valid() && r == MountOutcome(IfDecision(attributes), host)
      ensures r.Fail? ==> unchanged(doc, rt)
      ensures r.Ok? ==> Mounted(doc, rt)
      ensures r.Ok? ==> forall x :: x !in nodeList && x != placeholder ==> (x in doc.parent <==> x in old(doc.parent))
      ensures r.Ok? && IfDecision(attributes) == ShowContent ==>
        && (forall x :: x in nodeList ==> x in doc.parent && doc.parent[x] == host.value)
        && (forall x :: x !in nodeList ==> (x in doc.parent <==> x in old(doc.parent)))
        && rt.toggles == old(rt.toggles) + [Toggle(this, true)] && rt.pending == old(rt.pending) + Queued(runOnload)
      ensures r.Ok? && IfDecision(attributes) == ShowPlaceholder ==>
        && doc.parent == old(doc.parent)[placeholder := host.value]
        && rt.toggles == old(rt.toggles) && rt.pending == old(rt.pending)
    {
      var d := IfDecision(attributes);
      if d == NotCallable {
        return Fail(NotAFunction);
      }
      if host.None? {
        return Fail(NoHost);
      }
      var h := host.value;
      if d == ShowContent {
        r := Reveal(doc, rt, h);
        EndsWithAppended(old(rt.pending), Queued(runOnload));
      } else {
        AppendOne(doc, h, placeholder);
        r := Ok;
      }
      assert forall o :: o in AttrSignals(attributes) ==> unchanged(o);
      assert IfDecision(attributes) == d;
    }

    /** The list appended to the host, then `render`, which finds it
        attached and only defers `runOnload`. */
    method Reveal(doc: Host, rt: Runtime, h: NodeId) returns (r: Outcome<Error>)
      requires Fits(doc, placeholder, {}, nodeList) && nodeList != [] && h < doc.next
      modifies doc`parent, doc`kids, rt`pending, rt`toggles
      ensures doc.Valid() && r == Ok
      ensures forall x :: x in nodeList ==> x in doc.parent && doc.parent[x] == h
      ensures forall x :: x !in nodeList ==> (x in doc.parent <==> x in old(doc.parent))
      ensures EndsWith(doc.Kids(h), nodeList)
      ensures rt.toggles == old(rt.toggles) + [Toggle(this, true)] && rt.pending == old(rt.pending) + Queued(runOnload)
    {
      AppendList(doc, h, nodeList);
      assert nodeList[0] in nodeList;
      r := RenderAttached(doc, rt);
    }

    /** `render()` on content that is attached already: it leaves the tree
        as it is, logs the call and defers `runOnload`. */
    method RenderAttached(doc: Host, rt: Runtime) returns (r: Outcome<Error>)
      requires doc.Valid() && Toggleable(doc, nodeList, placeholder) && doc.Attached(nodeList[0])
      modifies doc`parent, doc`kids, rt`pending, rt`toggles
      ensures r == Ok && doc.Valid() && doc.parent == old(doc.parent) && doc.kids == old(doc.kids)
      ensures rt.toggles == old(rt.toggles) + [Toggle(this, true)] && rt.pending == old(rt.pending) + Queued(runOnload)
    {
      r := Render(doc, rt);
    }
  }
}
