/** The closed table of extension points ("hooks") that plugins register
    callbacks into, the bounded append `load_hook` performs on it, and the
    fan-out invoker every declared hook gets.

    The table is `plugin_hooks`: 64 slots, each either undeclared (its name
    is null) or pointing at the storage one `DEFINE_PLUGIN_API_HOOK` created:
    a fixed-size callback array, a counter and a limit.  The abstract value
    of the table is a sequence of `Slot`s; every operation on the objects is
    proved against a function on that sequence, and the properties of the
    registry are lemmas about those functions. */
module HookRegistry {

  /** Number of slots of `plugin_hooks`; also the largest hook array a
      plugin may return. */
  const MAX_PLUGIN_HOOKS: nat := 64

  /** A callback as the plugin hands it over: an opaque function address.
      The model never calls through it; it only records which ones are
      called and in what order. */
  type Callback = nat

  /** One entry of the array a plugin's `describe_hooks` returns. */
  datatype HookPair = HookPair(id: int, ptr: Callback)

  /** The abstract value of one table slot: undeclared, or a declared hook
      with its name, its capacity and the callbacks accepted so far. */
  datatype Slot = Undeclared | Declared(name: string, limit: nat, callbacks: seq<Callback>)

  /** count <= limit for a declared slot. */
  predicate SlotBounded(s: Slot)
  {
    s.Declared? ==> |s.callbacks| <= s.limit
  }

  predicate Bounded(v: seq<Slot>)
  {
    forall i :: 0 <= i < |v| ==> SlotBounded(v[i])
  }

  /** The first `n` elements of `s`, or all of `s` when it is shorter. */
  function Take<T>(s: seq<T>, n: nat): (r: seq<T>)
    ensures |r| <= n && r <= s
    ensures |s| <= n ==> r == s
    ensures n <= |s| ==> |r| == n
  {
    if |s| <= n then s else s[..n]
  }

  /** The effect of `load_hook(p)` on the table `v`; the caller has already
      checked that `p.id` is a slot index. */
  function AcceptHook(v: seq<Slot>, p: HookPair): (w: seq<Slot>)
    requires 0 <= p.id < |v|
    ensures |w| == |v|
  {
    match v[p.id]
    case Undeclared => v
    case Declared(name, limit, callbacks) =>
      if |callbacks| >= limit then v
      else v[p.id := Declared(name, limit, callbacks + [p.ptr])]
  }

  /** `load_hook` changes the table exactly when the addressed slot is
      declared and not full, and then only by appending the one callback at
      the end of that slot; the slot's name and capacity are kept. */
  lemma AcceptHookCases(v: seq<Slot>, p: HookPair)
    requires 0 <= p.id < |v|
    ensures AcceptHook(v, p) != v <==> v[p.id].Declared? && |v[p.id].callbacks| < v[p.id].limit
    ensures AcceptHook(v, p) != v ==>
              var before, after := v[p.id], AcceptHook(v, p)[p.id];
              after.Declared? && after.name == before.name && after.limit == before.limit &&
              |after.callbacks| == |before.callbacks| + 1 &&
              after.callbacks[..|before.callbacks|] == before.callbacks &&
              after.callbacks[|before.callbacks|] == p.ptr
    ensures forall j :: 0 <= j < |v| && j != p.id ==> AcceptHook(v, p)[j] == v[j]
  {
    match v[p.id]
    case Undeclared =>
    case Declared(name, limit, callbacks) =>
      if |callbacks| < limit {
        var w := AcceptHook(v, p);
        assert |w[p.id].callbacks| == |callbacks| + 1;
        assert w[p.id] != v[p.id];
        assert (callbacks + [p.ptr])[..|callbacks|] == callbacks;
      }
  }

  /** `load_hook` applied to every pair of `ps`, in order. */
  function LoadHooks(v: seq<Slot>, ps: seq<HookPair>): (w: seq<Slot>)
    requires forall k :: 0 <= k < |ps| ==> 0 <= ps[k].id < |v|
    ensures |w| == |v|
    decreases |ps|
  {
    if |ps| == 0 then v
    else AcceptHook(LoadHooks(v, ps[..|ps| - 1]), ps[|ps| - 1])
  }

  /** One more `load_hook` call after the pairs `ps`. */
  lemma LoadHooksStep(v: seq<Slot>, ps: seq<HookPair>, p: HookPair)
    requires forall k :: 0 <= k < |ps| ==> 0 <= ps[k].id < |v|
    requires 0 <= p.id < |v|
    ensures LoadHooks(v, ps + [p]) == AcceptHook(LoadHooks(v, ps), p)
  {
    assert (ps + [p])[..|ps|] == ps;
  }

  /** The callbacks that `ps` offers to slot `s`, in the order offered. */
  function PtrsFor(ps: seq<HookPair>, s: int): (r: seq<Callback>)
    ensures |r| <= |ps|
    decreases |ps|
  {
    if |ps| == 0 then []
    else PtrsFor(ps[..|ps| - 1], s) + (if ps[|ps| - 1].id == s then [ps[|ps| - 1].ptr] else [])
  }

  /** A reference definition of what a slot holds after being offered `xs`:
      the offers are appended in order until the capacity is reached, and
      every later offer is dropped. */
  function Grown(slot: Slot, xs: seq<Callback>): (r: Slot)
  {
    match slot
    case Undeclared => Undeclared
    case Declared(name, limit, callbacks) => Declared(name, limit, Take(callbacks + xs, limit))
  }

  lemma GrownBounded(slot: Slot, xs: seq<Callback>)
    ensures SlotBounded(Grown(slot, xs))
    ensures slot.Declared? ==> Grown(slot, xs).Declared? && Grown(slot, xs).name == slot.name && Grown(slot, xs).limit == slot.limit
  {
  }

  /** Offering `x` and then `y` is offering `x + y`. */
  lemma GrownAppend(slot: Slot, x: seq<Callback>, y: seq<Callback>)
    requires SlotBounded(slot)
    ensures Grown(Grown(slot, x), y) == Grown(slot, x + y)
  {
    match slot
    case Undeclared =>
    case Declared(name, limit, c) =>
      assert c + x + y == c + (x + y);
      if |c + x| > limit {
        assert (c + x + y)[..limit] == (c + x)[..limit];
      }
  }

  /** `load_hook` on the spec level: the addressed slot grows by the one
      offer (or stays as it is when undeclared or full), every other slot is
      untouched. */
  lemma AcceptHookIsGrown(v: seq<Slot>, p: HookPair)
    requires 0 <= p.id < |v|
    ensures SlotBounded(v[p.id]) ==> AcceptHook(v, p)[p.id] == Grown(v[p.id], [p.ptr])
    ensures forall j :: 0 <= j < |v| && j != p.id ==> AcceptHook(v, p)[j] == v[j]
  {
  }

  /** After a sequence of `load_hook` calls, slot `s` holds its old
      callbacks followed by the ones offered to it, in offer order, cut off
      at its capacity; an undeclared slot stays undeclared. */
  lemma {:induction false} LoadHooksSlot(v: seq<Slot>, ps: seq<HookPair>, s: int)
    requires forall k :: 0 <= k < |ps| ==> 0 <= ps[k].id < |v|
    requires 0 <= s < |v| && SlotBounded(v[s])
    ensures LoadHooks(v, ps)[s] == Grown(v[s], PtrsFor(ps, s))
    decreases |ps|
  {
    if |ps| == 0 {
      match v[s]
      case Undeclared =>
      case Declared(name, limit, c) => assert c + [] == c;
    } else {
      var init, p := ps[..|ps| - 1], ps[|ps| - 1];
      LoadHooksSlot(v, init, s);
      var mid := LoadHooks(v, init);
      GrownBounded(v[s], PtrsFor(init, s));
      AcceptHookIsGrown(mid, p);
      if p.id == s {
        GrownAppend(v[s], PtrsFor(init, s), [p.ptr]);
      }
    }
  }

  /** Appending never breaks count <= limit. */
  lemma {:induction false} LoadHooksBounded(v: seq<Slot>, ps: seq<HookPair>)
    requires forall k :: 0 <= k < |ps| ==> 0 <= ps[k].id < |v|
    requires Bounded(v)
    ensures Bounded(LoadHooks(v, ps))
  {
    forall s | 0 <= s < |v|
      ensures SlotBounded(LoadHooks(v, ps)[s])
    {
      LoadHooksSlot(v, ps, s);
      GrownBounded(v[s], PtrsFor(ps, s));
    }
  }

  /** The table the two `DEFINE_PLUGIN_API_HOOK` lines declare, before any
      plugin is loaded. */
  function InitialView(): (v: seq<Slot>)
    ensures |v| == MAX_PLUGIN_HOOKS
  {
    seq(MAX_PLUGIN_HOOKS, i =>
      if i == 0 then Declared("plugin_handle_mister_cmd", 5, [])
      else if i == 1 then Declared("plugin_test", 1, [])
      else Undeclared)
  }

  /** Exactly ids 0 and 1 are declared, with capacities 5 and 1, and every
      slot starts empty. */
  lemma InitialViewDeclared()
    ensures Bounded(InitialView())
    ensures forall i :: 0 <= i < MAX_PLUGIN_HOOKS ==> (InitialView()[i].Declared? <==> i == 0 || i == 1)
    ensures InitialView()[0].limit == 5 && InitialView()[1].limit == 1
    ensures forall i :: 0 <= i < MAX_PLUGIN_HOOKS && InitialView()[i].Declared? ==> InitialView()[i].callbacks == []
  {
  }

  /** The storage one `DEFINE_PLUGIN_API_HOOK(id, name, max_instances, ...)`
      creates: the callback array, the counter and the generated invoker. */
  class Hook {
    const name: string
    const limit: nat
    const arr: array<Callback>
    var count: nat

    ghost predicate Valid()
      reads this
    {
      arr.Length == limit && count <= limit
    }

    /** The registered callbacks, in registration order. */
    ghost function Callbacks(): seq<Callback>
      reads this, arr
      requires Valid()
    {
      arr[..count]
    }

    constructor (name: string, maxInstances: nat)
      ensures Valid() && fresh(arr)
      ensures this.name == name && limit == maxInstances && Callbacks() == []
    {
      this.name := name;
      limit := maxInstances;
      arr := new Callback[maxInstances];
      count := 0;
    }

    /** The invoker: calls `arr[0] .. arr[count - 1]` in index order, each
        once with the caller's argument, and returns `count`.  The result
        is the trace of calls made. */
    method Invoke<A>(arg: A) returns (calls: seq<(Callback, A)>, n: int)
      requires Valid()
      ensures |calls| == |Callbacks()| && n == |Callbacks()|
      ensures forall k :: 0 <= k < |calls| ==> calls[k] == (Callbacks()[k], arg)
    {
      calls := [];
      var i := 0;
      while i < count
        invariant 0 <= i <= count
        invariant |calls| == i
        invariant forall k :: 0 <= k < i ==> calls[k] == (arr[k], arg)
      {
        calls := calls + [(arr[i], arg)];
        i := i + 1;
      }
      n := count;
    }
  }

  /** `plugin_hooks`: a slot is null when no hook with that id is declared. */
  class HookTable {
    const table: array<Hook?>
    ghost var View: seq<Slot>
    ghost var Repr: set<object>
    /** The slot each hook and each callback array belongs to; it keeps
        the storage of different slots apart. */
    ghost var Owner: map<object?, int>

    ghost predicate Valid()
      reads this, Repr
    {
      this in Repr && table in Repr &&
      table.Length == MAX_PLUGIN_HOOKS && |View| == MAX_PLUGIN_HOOKS &&
      (forall i :: 0 <= i < MAX_PLUGIN_HOOKS && table[i] != null ==>
         table[i] in Repr && table[i].arr in Repr && table[i].Valid() &&
         table[i] in Owner && Owner[table[i]] == i && table[i].arr in Owner && Owner[table[i].arr] == i) &&
      (forall i :: 0 <= i < MAX_PLUGIN_HOOKS ==>
         View[i] == if table[i] == null then Undeclared
                    else Declared(table[i].name, table[i].limit, table[i].Callbacks()))
    }

    lemma ViewBounded()
      requires Valid()
      ensures Bounded(View)
    {
    }

    /** The zero-initialised global: no slot declared. */
    constructor ()
      ensures Valid() && fresh(Repr)
      ensures View == seq(MAX_PLUGIN_HOOKS, _ => Undeclared)
    {
      table := new Hook?[MAX_PLUGIN_HOOKS](_ => null);
      View := seq(MAX_PLUGIN_HOOKS, _ => Undeclared);
      Owner := map[];
      new;
      Repr := {this, table};
    }

    /** `HookRegistrar`: puts `hook` into slot `id` when `id` is below 64
        and ignores it otherwise. */
    method Register(id: int, hook: Hook)
      requires Valid() && hook.Valid()
      requires 0 <= id
      requires hook !in Repr && hook.arr !in Repr
      modifies this, table
      ensures Valid()
      ensures Repr == if id < MAX_PLUGIN_HOOKS then old(Repr) + {hook, hook.arr} else old(Repr)
      ensures View == if id < MAX_PLUGIN_HOOKS
                      then old(View)[id := Declared(hook.name, hook.limit, hook.Callbacks())]
                      else old(View)
      ensures id < MAX_PLUGIN_HOOKS ==> table[id] == hook
      ensures forall i :: 0 <= i < MAX_PLUGIN_HOOKS && i != id ==> table[i] == old(table[i])
    {
      if id < MAX_PLUGIN_HOOKS {
        table[id] := hook;
        Repr := Repr + {hook, hook.arr};
        Owner := Owner[hook := id][hook.arr := id];
        View := View[id := Declared(hook.name, hook.limit, hook.Callbacks())];
      }
    }

    /** `load_hook`: the caller guarantees `0 <= p.id < 64`. */
    method LoadHook(p: HookPair)
      requires Valid() && 0 <= p.id < MAX_PLUGIN_HOOKS
      modifies Repr - {table}
      ensures Valid() && Repr == old(Repr)
      ensures View == AcceptHook(old(View), p)
    {
      var h := table[p.id];
      if h == null {
        return;
      }
      if h.count >= h.limit {
        return;
      }
      ghost var before := h.Callbacks();
      h.arr[h.count] := p.ptr;
      h.count := h.count + 1;
      assert h.Callbacks() == before + [p.ptr];
      View := View[p.id := Declared(h.name, h.limit, h.Callbacks())];
    }
  }

  /** The two `DEFINE_PLUGIN_API_HOOK` lines: hook 0
      `plugin_handle_mister_cmd` with 5 instances and hook 1 `plugin_test`
      with 1, each registered in the table. */
  method DeclareHooks() returns (t: HookTable, handleMisterCmd: Hook, test: Hook)
    ensures t.Valid() && fresh(t.Repr)
    ensures t.View == InitialView()
    ensures t.table[0] == handleMisterCmd && t.table[1] == test
  {
    t := new HookTable();
    handleMisterCmd := new Hook("plugin_handle_mister_cmd", 5);
    t.Register(0, handleMisterCmd);
    test := new Hook("plugin_test", 1);
    t.Register(1, test);
  }
}
