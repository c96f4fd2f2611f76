/**
 The generational slot map behind volume and viewer handles: slots that are reused through a
 free list, and 32-bit generations that wrap.
 */
module SlotMap {
  import opened Geometry

  datatype SlotKey = SlotKey(index: nat, generation: nat)

  datatype Slot<+T> = Slot(generation: nat, value: Option<T>)

  // ----- The registry as a value -----

  datatype Registry<T> = Registry(slots: seq<Slot<T>>, free: seq<nat>) {

    /** The free list is duplicate-free and holds exactly the empty slots. */
    ghost predicate Valid() {
      && (forall a: nat, b: nat :: a < b < |free| ==> free[a] != free[b])
      && (forall a: nat :: a < |free| ==> free[a] < |slots|)
      && (forall i: nat :: i < |slots| ==> (i in free <==> slots[i].value.None?))
      && |slots| <= U32_MODULUS
    }

    function Get(key: SlotKey): Option<T> {
      if key.index < |slots| && slots[key.index].generation == key.generation then slots[key.index].value else None
    }

    function KeyAt(i: nat): SlotKey
      requires i < |slots|
    {
      SlotKey(i, slots[i].generation)
    }

    /** The map from live handles to their values. */
    ghost function Contents(): (m: map<SlotKey, T>)
      ensures forall key: SlotKey :: key in m <==> Get(key).Some?
      ensures forall key: SlotKey :: key in m ==> m[key] == Get(key).value
    {
      var keys := set i: nat | i < |slots| && slots[i].value.Some? :: KeyAt(i);
      assert forall key: SlotKey :: Get(key).Some? ==> key == KeyAt(key.index) && key in keys;
      map key | key in keys :: Get(key).value
    }

    /** An empty slot remains, or a further slot still fits a handle. */
    predicate HasRoom() {
      free != [] || |slots| < U32_MODULUS
    }

    /** The slot the next value goes to. */
    function NextIndex(): nat {
      if free != [] then free[|free| - 1] else |slots|
    }

    function Added(value: T): (Registry<T>, SlotKey)
      requires Valid() && HasRoom()
    {
      if free != [] then
        var i := NextIndex();
        assert i in free;
        (Registry(slots[i := slots[i].(value := Some(value))], free[..|free| - 1]), KeyAt(i))
      else
        (Registry(slots + [Slot(1, Some(value))], free), SlotKey(|slots|, 1))
    }

    function Removed(key: SlotKey): Registry<T>
    {
      if Get(key).None? then this
      else
        Registry(slots[key.index := Slot((key.generation + 1) % U32_MODULUS, None)], free + [key.index])
    }

    /** The value behind a mutable borrow replaced. */
    function Replaced(key: SlotKey, value: T): Registry<T> {
      if Get(key).None? then this else Registry(slots[key.index := Slot(key.generation, Some(value))], free)
    }

    function LiveValues(n: nat): seq<T>
      requires n <= |slots|
    {
      if n == 0 then []
      else LiveValues(n - 1) + if slots[n - 1].value.Some? then [slots[n - 1].value.value] else []
    }
  }

  // ----- The registry refines a map -----

  lemma {:induction false} AddedIsInsertion<T>(r: Registry<T>, value: T)
    requires r.Valid() && r.HasRoom()
    ensures var (r', key) := r.Added(value);
            && r'.Valid() && key !in r.Contents() && r'.Contents() == r.Contents()[key := value]
  {
    AddedStaysValid(r, value);
    var (r', key) := r.Added(value);
    assert forall k: SlotKey :: r'.Get(k) == if k == key then Some(value) else r.Get(k);
  }

  lemma {:induction false} AddedStaysValid<T>(r: Registry<T>, value: T)
    requires r.Valid() && r.HasRoom()
    ensures r.Added(value).0.Valid() && r.Get(r.Added(value).1).None?
  {
    var r' := r.Added(value).0;
    if r.free != [] {
      var i, rest := r.NextIndex(), r.free[..|r.free| - 1];
      assert i in r.free && r.free == rest + [i];
      LastIsOut(rest, i);
      assert forall j: nat :: j < |r.slots| ==> (j in rest <==> j in r.free && j != i);
      assert forall j: nat :: j < |r'.slots| ==> (j in r'.free <==> r'.slots[j].value.None?);
    }
  }

  lemma LastIsOut(rest: seq<nat>, i: nat)
    requires forall a: nat, b: nat :: a < b < |rest + [i]| ==> (rest + [i])[a] != (rest + [i])[b]
    ensures i !in rest
  {
    forall a: nat | a < |rest|
      ensures rest[a] != i
    {
      assert (rest + [i])[a] != (rest + [i])[|rest|];
    }
  }

  lemma {:induction false} RemovedIsDeletion<T>(r: Registry<T>, key: SlotKey)
    requires r.Valid()
    ensures r.Removed(key).Valid() && r.Removed(key).Contents() == r.Contents() - {key}
  {
    var r' := r.Removed(key);
    if key in r.Contents() {
      assert key.index !in r.free;
      assert forall j: nat :: j in r'.free <==> j in r.free || j == key.index;
      assert forall k: SlotKey :: r'.Get(k) == if k == key then None else r.Get(k);
    }
  }

  lemma {:induction false} ReplacedIsUpdate<T>(r: Registry<T>, key: SlotKey, value: T)
    requires r.Valid()
    ensures r.Replaced(key, value).Valid()
    ensures r.Replaced(key, value).Contents()
            == if key in r.Contents() then r.Contents()[key := value] else r.Contents()
  {
    var r' := r.Replaced(key, value);
    assert forall k: SlotKey :: r'.Get(k) == if k == key && r.Get(key).Some? then Some(value) else r.Get(k);
  }

  /** A value added right after a removal takes the freed slot, under the next generation; nothing else moves. */
  lemma {:induction false} LastRemovedIsReused<T>(r: Registry<T>, key: SlotKey, value: T)
    requires r.Valid() && key in r.Contents()
    ensures var removed := r.Removed(key);
            && removed.Valid() && removed.HasRoom()
            && var (r', key') := removed.Added(value);
               && key' == SlotKey(key.index, (key.generation + 1) % 0x1_0000_0000)
               && r'.free == r.free && |r'.slots| == |r.slots|
               && forall i: nat :: i < |r.slots| && i != key.index ==> r'.slots[i] == r.slots[i]
  {
    RemovedIsDeletion(r, key);
    var removed := r.Removed(key);
    assert removed.free == r.free + [key.index];
    assert removed.free[..|removed.free| - 1] == r.free;
  }

  /** Without a freed slot, a value takes a new one after the others, in generation 1. */
  lemma FreshSlotIsLast<T>(r: Registry<T>, value: T)
    requires r.Valid() && r.HasRoom() && r.free == []
    ensures var (r', key) := r.Added(value);
            key == SlotKey(|r.slots|, 1) && r'.slots[..|r.slots|] == r.slots && |r'.slots| == |r.slots| + 1
  {
  }

  /** The value of an occupied slot stands behind those of the occupied slots before it. */
  lemma {:induction false} ValueStandsAtRank<T>(r: Registry<T>, m: nat, n: nat)
    requires m < n <= |r.slots| && r.slots[m].value.Some?
    ensures var rank := |Registry(r.slots[..m], []).Contents()|;
            rank < |r.LiveValues(n)| && r.LiveValues(n)[rank] == r.slots[m].value.value
    decreases n
  {
    LiveValuesCount(r, m);
    if m < n - 1 {
      ValueStandsAtRank(r, m, n - 1);
    }
  }

  /** The live values in slot order are as many as the live handles. */
  lemma {:induction false} LiveValuesCount<T>(r: Registry<T>, n: nat)
    requires n <= |r.slots|
    ensures |r.LiveValues(n)| == |Registry(r.slots[..n], []).Contents()|
  {
    if n == 0 {
      assert Registry(r.slots[..0], []).Contents() == map[];
    } else {
      LiveValuesCount(r, n - 1);
      OneMoreSlot(r, n);
    }
  }

  lemma {:induction false} OneMoreSlot<T>(r: Registry<T>, n: nat)
    requires 0 < n <= |r.slots|
    ensures |Registry(r.slots[..n], []).Contents()|
            == |Registry(r.slots[..n - 1], []).Contents()| + if r.slots[n - 1].value.Some? then 1 else 0
  {
    KeysWithOneMoreSlot(r, n);
    var longer, shorter := Registry(r.slots[..n], []).Contents().Keys, Registry(r.slots[..n - 1], []).Contents().Keys;
    var key := r.KeyAt(n - 1);
    if r.slots[n - 1].value.Some? {
      assert longer == shorter + {key} && key !in shorter;
    } else {
      assert longer == shorter;
    }
  }

  lemma {:induction false} KeysWithOneMoreSlot<T>(r: Registry<T>, n: nat)
    requires 0 < n <= |r.slots|
    ensures forall k: SlotKey :: k in Registry(r.slots[..n], []).Contents() <==>
              k in Registry(r.slots[..n - 1], []).Contents() || (r.slots[n - 1].value.Some? && k == r.KeyAt(n - 1))
    ensures r.KeyAt(n - 1) !in Registry(r.slots[..n - 1], []).Contents()
  {
    var longer, shorter := Registry(r.slots[..n], []), Registry(r.slots[..n - 1], []);
    forall k: SlotKey
      ensures longer.Get(k).Some? <==> shorter.Get(k).Some? || (r.slots[n - 1].value.Some? && k == r.KeyAt(n - 1))
    {
    }
  }

  // ----- The class -----

  class GenerationalSlotMap<T> {
    var slots: seq<Slot<T>>
    var freeIndices: seq<nat>

    ghost function State(): Registry<T>
      reads this
    {
      Registry(slots, freeIndices)
    }

    constructor ()
      ensures State() == Registry([], []) && State().Valid() && State().Contents() == map[]
    {
      slots, freeIndices := [], [];
    }

    method Add(value: T) returns (key: SlotKey)
      requires State().Valid() && State().HasRoom()
      modifies this
      ensures (State(), key) == old(State()).Added(value)
      ensures State().Valid() && key !in old(State().Contents())
      ensures State().Contents() == old(State().Contents())[key := value]
    {
      AddedIsInsertion(State(), value);
      if freeIndices != [] {
        var index := freeIndices[|freeIndices| - 1];
        assert index in freeIndices;
        freeIndices := freeIndices[..|freeIndices| - 1];
        var slot := slots[index];
        slots := slots[index := slot.(value := Some(value))];
        return SlotKey(index, slot.generation);
      }
      var index := |slots|;
      slots := slots + [Slot(1, Some(value))];
      return SlotKey(index, 1);
    }

    method Remove(key: SlotKey) returns (ok: bool)
      requires State().Valid()
      modifies this
      ensures State() == old(State()).Removed(key)
      ensures ok <==> key in old(State().Contents())
      ensures State().Valid() && State().Contents() == old(State().Contents()) - {key}
    {
      RemovedIsDeletion(State(), key);
      if key.index >= |slots| {
        return false;
      }
      var slot := slots[key.index];
      if slot.generation != key.generation || slot.value.None? {
        return false;
      }
      slots := slots[key.index := Slot((slot.generation + 1) % U32_MODULUS, None)];
      freeIndices := freeIndices + [key.index];
      return true;
    }

    method Get(key: SlotKey) returns (value: Option<T>)
      ensures value == if key in State().Contents() then Some(State().Contents()[key]) else None
    {
      if key.index >= |slots| {
        return None;
      }
      var slot := slots[key.index];
      value := if slot.generation == key.generation then slot.value else None;
    }

    /** Writes through a mutable borrow, when the handle resolves. */
    method Set(key: SlotKey, value: T) returns (ok: bool)
      requires State().Valid()
      modifies this
      ensures State() == old(State()).Replaced(key, value)
      ensures ok <==> key in old(State().Contents())
      ensures State().Valid()
      ensures State().Contents() == if ok then old(State().Contents())[key := value] else old(State().Contents())
    {
      ReplacedIsUpdate(State(), key, value);
      if key.index >= |slots| || slots[key.index].generation != key.generation || slots[key.index].value.None? {
        return false;
      }
      slots := slots[key.index := slots[key.index].(value := Some(value))];
      return true;
    }

    method Count() returns (n: nat)
      ensures n == |State().Contents()|
    {
      n := 0;
      for i := 0 to |slots|
        invariant n == |State().LiveValues(i)|
      {
        if slots[i].value.Some? {
          n := n + 1;
        }
      }
      LiveValuesCount(State(), |slots|);
      ghost var bare := Registry(slots[..|slots|], []);
      assert slots[..|slots|] == slots;
      assert forall k: SlotKey :: bare.Get(k) == State().Get(k);
      assert bare.Contents() == State().Contents();
    }

    method Values() returns (values: seq<T>)
      ensures values == State().LiveValues(|slots|)
    {
      values := [];
      for i := 0 to |slots|
        invariant values == State().LiveValues(i)
      {
        if slots[i].value.Some? {
          values := values + [slots[i].value.value];
        }
      }
    }
  }

  // ----- Whole runs, with the history of every handle -----

  datatype Op<T> = OpAdd(value: T) | OpRemove(key: SlotKey) | OpSet(key: SlotKey, value: T)

  /** A handle, with the number of removals its slot had seen when the handle was issued. */
  datatype Issue = Issue(index: nat, epoch: nat) {
    function Key(): SlotKey {
      SlotKey(index, (1 + epoch) % U32_MODULUS)
    }
  }

  /** A registry, the removals each slot has seen, and every handle ever issued, oldest first. */
  datatype World<T> = World(reg: Registry<T>, removals: seq<nat>, issued: seq<Issue>) {

    ghost predicate Valid() {
      && reg.Valid()
      && |removals| == |reg.slots|
      && (forall i: nat :: i < |removals| ==> reg.slots[i].generation == (1 + removals[i]) % U32_MODULUS)
      && (forall a: nat :: a < |issued| ==> IssuedBefore(issued[a]))
      && (forall a: nat, b: nat :: a < b < |issued| ==> issued[a] != issued[b])
    }

    /** The handle's slot exists; only the latest handle of an occupied slot has not been removed since. */
    predicate IssuedBefore(h: Issue)
      requires |removals| == |reg.slots|
    {
      && h.index < |removals|
      && (if reg.slots[h.index].value.Some? then h.epoch <= removals[h.index] else h.epoch < removals[h.index])
    }

    /** The handle has been removed. */
    predicate Dead(h: Issue)
      requires h.index < |removals|
    {
      h.epoch < removals[h.index]
    }
  }

  function Next<T>(w: World<T>, op: Op<T>): World<T>
    requires w.reg.Valid() && |w.removals| == |w.reg.slots|
  {
    match op
    case OpAdd(value) =>
      // Adding to a full registry panics: nothing changes.
      if !w.reg.HasRoom() then w
      else
        var i := w.reg.NextIndex();
        assert w.reg.free != [] ==> i in w.reg.free;
        var removals := if i < |w.removals| then w.removals else w.removals + [0];
        World(w.reg.Added(value).0, removals, w.issued + [Issue(i, removals[i])])
    case OpRemove(key) =>
      if w.reg.Get(key).None? then w
      else World(w.reg.Removed(key), w.removals[key.index := w.removals[key.index] + 1], w.issued)
    case OpSet(key, value) => w.(reg := w.reg.Replaced(key, value))
  }

  ghost function Run<T>(ops: seq<Op<T>>): (w: World<T>)
    ensures w.Valid()
  {
    if ops == [] then World(Registry([], []), [], [])
    else
      var before := Run(ops[..|ops| - 1]);
      NextStaysValid(before, ops[|ops| - 1]);
      Next(before, ops[|ops| - 1])
  }

  lemma {:induction false} NextStaysValid<T>(w: World<T>, op: Op<T>)
    requires w.Valid()
    ensures Next(w, op).Valid()
  {
    match op
    case OpAdd(value) =>
      if w.reg.HasRoom() {
        AddKeepsHistory(w, value);
      }
    case OpRemove(key) =>
      if w.reg.Get(key).Some? {
        RemoveKeepsHistory(w, key);
      }
    case OpSet(key, value) =>
      ReplacedIsUpdate(w.reg, key, value);
  }

  lemma {:induction false} AddKeepsHistory<T>(w: World<T>, value: T)
    requires w.Valid() && w.reg.HasRoom()
    ensures Next(w, OpAdd(value)).Valid()
  {
    AddedStaysValid(w.reg, value);
    var w', i := Next(w, OpAdd(value)), w.reg.NextIndex();
    assert w.reg.free != [] ==> i in w.reg.free;
    forall a: nat | a < |w.issued|
      ensures w'.IssuedBefore(w.issued[a]) && w.issued[a] != w'.issued[|w.issued|]
    {
      assert w.IssuedBefore(w.issued[a]);
    }
  }

  lemma {:induction false} RemoveKeepsHistory<T>(w: World<T>, key: SlotKey)
    requires w.Valid() && w.reg.Get(key).Some?
    ensures Next(w, OpRemove(key)).Valid()
  {
    RemovedIsDeletion(w.reg, key);
    var w' := Next(w, OpRemove(key));
    NextGeneration(w.removals[key.index]);
    forall a: nat | a < |w.issued|
      ensures w'.IssuedBefore(w'.issued[a])
    {
      assert w.IssuedBefore(w.issued[a]);
    }
  }

  lemma NextGeneration(n: nat)
    ensures ((1 + n) % U32_MODULUS + 1) % U32_MODULUS == (1 + (n + 1)) % U32_MODULUS
  {
  }

  /** Two removal counts give the same generation exactly when they differ by a multiple of 2^32. */
  lemma SameGeneration(m: nat, n: nat)
    requires m <= n
    ensures (1 + m) % U32_MODULUS == (1 + n) % U32_MODULUS <==> (n - m) % U32_MODULUS == 0
  {
    var a, b := 1 + m, 1 + n;
    assert b - a == U32_MODULUS * (b / U32_MODULUS - a / U32_MODULUS) + (b % U32_MODULUS - a % U32_MODULUS);
  }

  /**
   In any reachable world, an old handle resolves exactly when its slot is occupied and has been
   removed a multiple of 2^32 times since the handle was issued; zero times is the normal case.
   */
  lemma {:induction false} ResolvesExactly<T>(w: World<T>, h: Issue)
    requires w.Valid() && w.IssuedBefore(h)
    ensures h.epoch <= w.removals[h.index]
    ensures w.reg.Get(h.Key()).Some? <==>
              w.reg.slots[h.index].value.Some? && (w.removals[h.index] - h.epoch) % U32_MODULUS == 0
  {
    SameGeneration(h.epoch, w.removals[h.index]);
  }

  lemma SmallMultiple(n: int)
    requires 0 < n < U32_MODULUS
    ensures n % U32_MODULUS != 0
  {
  }

  lemma {:induction false} DeadDoesNotResolve<T>(w: World<T>, h: Issue)
    requires w.Valid() && w.IssuedBefore(h) && w.removals[h.index] < U32_MODULUS
    ensures w.reg.Get(h.Key()).Some? <==> !w.Dead(h)
  {
    ResolvesExactly(w, h);
    if w.Dead(h) {
      SmallMultiple(w.removals[h.index] - h.epoch);
    }
  }

  /** Two issues have the same handle exactly when they share the slot and its removals differ by a multiple of 2^32. */
  lemma {:induction false} KeysAgreeExactly(h: Issue, k: Issue)
    ensures h.Key() == k.Key() <==> h.index == k.index && (h.epoch - k.epoch) % U32_MODULUS == 0
  {
    if h.epoch <= k.epoch {
      SameGeneration(h.epoch, k.epoch);
      OppositeMultiple(k.epoch - h.epoch);
    } else {
      SameGeneration(k.epoch, h.epoch);
    }
  }

  lemma OppositeMultiple(n: int)
    ensures (-n) % U32_MODULUS == 0 <==> n % U32_MODULUS == 0
  {
  }

  lemma {:induction false} EpochsGiveDistinctKeys(h: Issue, k: Issue)
    requires h != k && h.epoch < U32_MODULUS && k.epoch < U32_MODULUS
    ensures h.Key() != k.Key()
  {
    if h.epoch < k.epoch {
      SameGeneration(h.epoch, k.epoch);
      SmallMultiple(k.epoch - h.epoch);
    } else if k.epoch < h.epoch {
      SameGeneration(k.epoch, h.epoch);
      SmallMultiple(h.epoch - k.epoch);
    }
  }

  /** At any point of any run, which handles resolve, for every number of removals. */
  lemma {:induction false} HandleResolvesExactly<T>(ops: seq<Op<T>>, a: nat)
    requires a < |Run(ops).issued|
    ensures var w, h := Run(ops), Run(ops).issued[a];
            && w.IssuedBefore(h)
            && (w.reg.Get(h.Key()).Some? <==>
                  w.reg.slots[h.index].value.Some? && (w.removals[h.index] - h.epoch) % U32_MODULUS == 0)
  {
    hide Run;
    var w := Run(ops);
    assert w.IssuedBefore(w.issued[a]);
    ResolvesExactly(w, w.issued[a]);
  }

  /** While its slot has been removed fewer than 2^32 times, a handle resolves until it is removed and never after. */
  lemma {:induction false} HandleResolvesUntilRemoved<T>(ops: seq<Op<T>>, a: nat)
    requires a < |Run(ops).issued|
    ensures var w, h := Run(ops), Run(ops).issued[a];
            && h.index < |w.removals|
            && (w.removals[h.index] < U32_MODULUS ==> (w.reg.Get(h.Key()).Some? <==> !w.Dead(h)))
  {
    hide Run;
    var w := Run(ops);
    var h := w.issued[a];
    assert w.IssuedBefore(h);
    if w.removals[h.index] < U32_MODULUS {
      DeadDoesNotResolve(w, h);
    }
  }

  /** A handle is reissued exactly when its slot has been removed a positive multiple of 2^32 times in between. */
  lemma {:induction false} HandlesAreDistinct<T>(ops: seq<Op<T>>, a: nat, b: nat)
    requires a < b < |Run(ops).issued|
    ensures var w, h, k := Run(ops), Run(ops).issued[a], Run(ops).issued[b];
            && h.index < |w.removals| && k.index < |w.removals|
            && (h.Key() == k.Key() <==> h.index == k.index && (h.epoch - k.epoch) % U32_MODULUS == 0)
            && h != k
            && (w.removals[h.index] < U32_MODULUS && w.removals[k.index] < U32_MODULUS ==> h.Key() != k.Key())
  {
    hide Run;
    var w := Run(ops);
    assert w.IssuedBefore(w.issued[a]) && w.IssuedBefore(w.issued[b]);
    KeysAgreeExactly(w.issued[a], w.issued[b]);
    if w.issued[a].epoch < U32_MODULUS && w.issued[b].epoch < U32_MODULUS {
      EpochsGiveDistinctKeys(w.issued[a], w.issued[b]);
    }
  }

  lemma RunNext<T>(ops: seq<Op<T>>, op: Op<T>)
    ensures Run(ops + [op]) == Next(Run(ops), op)
  {
    hide Next;
    assert (ops + [op])[..|ops|] == ops;
  }

  /** Removal counts and the record of issued handles only ever grow, so a dead handle is dead for good. */
  lemma NextGrows<T>(w: World<T>, op: Op<T>)
    requires w.Valid()
    ensures var w' := Next(w, op);
            && w.issued <= w'.issued && |w.removals| <= |w'.removals|
            && forall i: nat :: i < |w.removals| ==> w.removals[i] <= w'.removals[i]
  {
  }

  lemma {:induction false} HistoryGrows<T>(ops: seq<Op<T>>, more: seq<Op<T>>)
    ensures var w, w' := Run(ops), Run(ops + more);
            && w.issued <= w'.issued && |w.removals| <= |w'.removals|
            && forall i: nat :: i < |w.removals| ==> w.removals[i] <= w'.removals[i]
    decreases |more|
  {
    hide Next;
    if more == [] {
      assert ops + more == ops;
    } else {
      var init, last := more[..|more| - 1], more[|more| - 1];
      HistoryGrows(ops, init);
      RunNext(ops + init, last);
      assert ops + more == ops + init + [last];
      NextGrows(Run(ops + init), last);
    }
  }

  /** A removed handle does not resolve at any later point of the run, in the same bounds. */
  lemma {:induction false} RemovedHandleNeverReturns<T>(ops: seq<Op<T>>, more: seq<Op<T>>, a: nat)
    requires a < |Run(ops).issued|
    requires Run(ops).issued[a].index < |Run(ops).removals| && Run(ops).Dead(Run(ops).issued[a])
    ensures var h, later := Run(ops).issued[a], Run(ops + more);
            && h.index < |later.removals|
            && (later.removals[h.index] < U32_MODULUS ==> later.reg.Get(h.Key()).None?)
  {
    HistoryGrows(ops, more);
    assert Run(ops + more).issued[a] == Run(ops).issued[a];
    HandleResolvesUntilRemoved(ops + more, a);
  }

  /** Each operation acts on the map of live handles, and each new handle is the one recorded last. */
  lemma {:induction false} RunRefinesMap<T>(ops: seq<Op<T>>, op: Op<T>)
    ensures var before, after := Run(ops), Run(ops + [op]);
            && after == Next(before, op)
            && (op.OpAdd? && before.reg.HasRoom() ==>
                  && after.issued == before.issued + [after.issued[|before.issued|]]
                  && after.issued[|before.issued|].Key() !in before.reg.Contents())
            && after.reg.Contents() ==
               match op
               case OpAdd(value) =>
                 if !before.reg.HasRoom() then before.reg.Contents()
                 else before.reg.Contents()[after.issued[|before.issued|].Key() := value]
               case OpRemove(key) => before.reg.Contents() - {key}
               case OpSet(key, value) =>
                 if key in before.reg.Contents() then before.reg.Contents()[key := value] else before.reg.Contents()
  {
    hide Run;
    var before := Run(ops);
    RunNext(ops, op);
    match op
    case OpAdd(value) =>
      if before.reg.HasRoom() {
        AddedHasRecordedKey(before, value);
      }
    case OpRemove(key) => RemovedIsDeletion(before.reg, key);
    case OpSet(key, value) => ReplacedIsUpdate(before.reg, key, value);
  }

  lemma {:induction false} AddedHasRecordedKey<T>(w: World<T>, value: T)
    requires w.Valid() && w.reg.HasRoom()
    ensures var w' := Next(w, OpAdd(value));
            && w'.issued == w.issued + [w'.issued[|w.issued|]]
            && w'.issued[|w.issued|].Key() == w.reg.Added(value).1
            && w.reg.Added(value).1 !in w.reg.Contents()
            && w'.reg.Contents() == w.reg.Contents()[w.reg.Added(value).1 := value]
  {
    AddedIsInsertion(w.reg, value);
    assert w.reg.free != [] ==> w.reg.NextIndex() in w.reg.free;
  }
}
