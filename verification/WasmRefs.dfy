/** The reference table of go/lib/wasm/wasm_exec.js: JavaScript values that Go holds, by id, with a
    free list and reference counts. */
module WasmRefs {

  /** A JavaScript value as the table sees it. Zero is 0 and -0, which a Map does not tell apart;
      Num is any other number but NaN, by its bits. */
  datatype Js =
    | Undefined | NaN | Zero | Num(bits: nat) | Null | Bool(b: bool) | Str(s: string) | BigInt(i: int)
    | Symbol(id: nat) | Func(id: nat) | Object(id: nat)

  const GLOBAL := Object(0)
  const GO := Object(1)

  /** The eight bytes that storeValue writes: a float64 that is not NaN, or NaN bits carrying a type
      flag and an id. FloatZero is what undefined is stored as. */
  datatype Word = FloatZero | Float(bits: nat) | NaNBits(typeFlag: nat, id: nat)

  /** A reference count; the reserved ids start at Infinity and stay there. */
  datatype Count = Infinity | Finite(n: int)

  function Plus(c: Count, d: int): Count {
    if c.Infinity? then Infinity else Finite(c.n + d)
  }

  function TypeFlag(v: Js): nat {
    match v
    case Object(_) => 1
    case Str(_) => 2
    case Symbol(_) => 3
    case Func(_) => 4
    case _ => 0
  }

  const RESERVED_IDS := 7
  const RESERVED: seq<Js> := [NaN, Zero, Null, Bool(true), Bool(false), GLOBAL, GO]

  /** Stored in the float64 itself. */
  predicate Inline(v: Js) { v.Undefined? || v.NaN? || v.Num? }

  class Host {
    var values: seq<Js>
    var goRefCounts: seq<Count>
    var ids: map<Js, nat>
    var idPool: seq<nat>
    /** The references Go was given and has not finalized, and the value each stands for. */
    ghost var held: multiset<nat>
    ghost var granted: map<nat, Js>

    ghost predicate Valid()
      reads this
    {
      Consistent(held)
    }

    /** The tables agree, the ids in live being in use, and Go's references are good. */
    ghost predicate Consistent(live: multiset<nat>)
      reads this
    {
      Agree(values, goRefCounts, ids, idPool, held, live) && forall id :: held[id] > 0 ==> HeldOk(id) && live[id] > 0
    }

    static ghost predicate Agree(vals: seq<Js>, counts: seq<Count>, table: map<Js, nat>, pool: seq<nat>,
                                 held: multiset<nat>, live: multiset<nat>)
    {
      && |vals| == |counts| >= |RESERVED|
      && (forall id :: 0 <= id < |vals| ==> Slot(vals, counts, table, pool, held[id], live[id], id))
      && (forall v :: v in table ==> Key(vals, table, live, v))
      && (forall id :: id in pool ==> RESERVED_IDS <= id < |vals| && live[id] == 0)
      && Distinct(pool)
    }

    static predicate Distinct(pool: seq<nat>) {
      forall i, j :: 0 <= i < j < |pool| ==> pool[i] != pool[j]
    }

    /** The entry of one id, Go holding count references; dead unless live > 0 or reserved. */
    static ghost predicate Slot(vals: seq<Js>, counts: seq<Count>, table: map<Js, nat>, pool: seq<nat>, count: nat, live: nat, id: nat)
      requires id < |vals| == |counts| && |vals| >= |RESERVED|
    {
      if id < RESERVED_IDS then
        vals[id] == RESERVED[id] && counts[id] == Infinity && (id > 0 ==> vals[id] in table && table[vals[id]] == id)
      else
        && counts[id] == Finite(count)
        && if live > 0 then vals[id] in table && table[vals[id]] == id else id in pool
    }

    static ghost predicate Key(vals: seq<Js>, table: map<Js, nat>, live: multiset<nat>, v: Js)
      requires v in table
    {
      var id := table[v];
      !Inline(v) && 1 <= id < |vals| && vals[id] == v && (id >= RESERVED_IDS ==> live[id] > 0)
    }

    ghost predicate HeldOk(id: nat)
      reads `values, `granted
    {
      1 <= id < |values| && id in granted && granted[id] == values[id]
    }

    /** The tables as run sets them up. */
    constructor ()
      ensures Valid() && held == multiset{} && granted == map[]
      ensures values == [NaN, Zero, Null, Bool(true), Bool(false), GLOBAL, GO]
    {
      values := RESERVED;
      goRefCounts := [Infinity, Infinity, Infinity, Infinity, Infinity, Infinity, Infinity];
      ids := map[Zero := 1, Null := 2, Bool(true) := 3, Bool(false) := 4, GLOBAL := 5, GO := 6];
      idPool := [];
      held, granted := multiset{}, map[];
    }

    /** loadValue. */
    function LoadValue(w: Word): (v: Js)
      requires w.NaNBits? ==> w.id < |values|
      reads this
      ensures w.FloatZero? ==> v == Undefined
      ensures w.Float? ==> v == Num(w.bits)
    {
      match w
      case FloatZero => Undefined
      case Float(bits) => Num(bits)
      case NaNBits(_, id) => values[id]
    }

    /** The word of an outstanding reference. */
    ghost predicate Outstanding(w: Word)
      reads this
    {
      w.NaNBits? && held[w.id] > 0 && w.id in granted
    }

    /** What is loaded through any reference Go still holds is what was stored. */
    lemma LoadOutstanding(w: Word)
      requires Valid() && Outstanding(w)
      ensures w.id < |values| && LoadValue(w) == granted[w.id]
    {
    }

    /** storeValue. */
    method StoreValue(v: Js) returns (w: Word)
      requires Valid()
      modifies this
      ensures Valid() && (w.NaNBits? ==> w.id < |values|) && LoadValue(w) == v
      ensures v.NaN? ==> w == NaNBits(0, 0)
      ensures v.Object? ==> w == NaNBits(1, w.id)
      ensures v.Str? ==> w == NaNBits(2, w.id)
      ensures v.Symbol? ==> w == NaNBits(3, w.id)
      ensures v.Func? ==> w == NaNBits(4, w.id)
      ensures v.Zero? || v.Null? || v.Bool? || v.BigInt? ==> w == NaNBits(0, w.id)
      ensures !Inline(v) ==> w.NaNBits? && ReservedId(v, w.id)
      ensures if Inline(v) then held == old(held) && granted == old(granted)
        else w.NaNBits? && w.id != 0 && held == old(held) + multiset{w.id}
             && granted == old(granted)[w.id := v] && (old(held)[w.id] > 0 ==> old(granted)[w.id] == v)
      ensures !Inline(v) ==> forall id :: old(held)[id] > 0 && old(granted)[id] == v ==> w.id == id
    {
      if v.NaN? {
        assert Slot(values, goRefCounts, ids, idPool, held[0], held[0], 0);
        return NaNBits(0, 0);
      }
      if v.Num? { return Float(v.bits); }
      if v.Undefined? { return FloatZero; }
      hide Valid, ReservedId;
      var id := Hold(v);
      return NaNBits(TypeFlag(v), id);
    }

    /** The ids that Go's syscall/js package knows. */
    static predicate ReservedId(v: Js, id: nat) {
      (v == Zero ==> id == 1) && (v == Null ==> id == 2) && (v == Bool(true) ==> id == 3) && (v == Bool(false) ==> id == 4)
      && (v == GLOBAL ==> id == 5) && (v == GO ==> id == 6)
    }

    /** The part of storeValue that finds or makes an id and counts the reference. */
    method Hold(v: Js) returns (id: nat)
      requires Valid() && !Inline(v)
      modifies this
      ensures Valid() && 1 <= id < |values| && values[id] == v && ReservedId(v, id)
      ensures held == old(held) + multiset{id} && granted == old(granted)[id := v] && (old(held)[id] > 0 ==> old(granted)[id] == v)
      ensures forall k :: old(held)[k] > 0 && old(granted)[k] == v ==> id == k
    {
      hide Agree, Slot, Key, HeldOk, ReservedId;
      HeldBy(v);
      ReservedFor(v);
      id := Identify(v);
      CountUp(id);
    }

    /** The id of v, a new one if it has none. */
    method Identify(v: Js) returns (id: nat)
      requires Valid() && !Inline(v)
      modifies `values, `goRefCounts, `ids, `idPool
      ensures Consistent(held + multiset{id}) && 1 <= id < |values| && values[id] == v
      ensures held[id] > 0 ==> id in granted && granted[id] == values[id]
      ensures old(v in ids) ==> id == old(ids)[v]
    {
      if v in ids {
        id := ids[v];
        KnownAgrees(values, goRefCounts, ids, idPool, held, v);
        assert held[id] > 0 ==> HeldOk(id);
        hide Agree, Slot, Key;
      } else {
        hide Agree, Slot, Key, HeldOk;
        id := Assign(v);
      }
    }

    /** The reserved values have their ids for ever. */
    lemma ReservedIds()
      requires Valid()
      ensures Zero in ids && ids[Zero] == 1 && Null in ids && ids[Null] == 2
      ensures Bool(true) in ids && ids[Bool(true)] == 3 && Bool(false) in ids && ids[Bool(false)] == 4
      ensures GLOBAL in ids && ids[GLOBAL] == 5 && GO in ids && ids[GO] == 6
    {
      forall k | 1 <= k < RESERVED_IDS ensures RESERVED[k] in ids && ids[RESERVED[k]] == k {
        assert Slot(values, goRefCounts, ids, idPool, held[k], held[k], k);
      }
      assert RESERVED[1] == Zero && RESERVED[2] == Null && RESERVED[3] == Bool(true) && RESERVED[4] == Bool(false);
      assert RESERVED[5] == GLOBAL && RESERVED[6] == GO;
    }

    lemma ReservedFor(v: Js)
      requires Valid()
      ensures v in ids ==> ReservedId(v, ids[v])
      ensures v !in ids ==> forall id :: ReservedId(v, id)
    {
      ReservedIds();
      hide Valid;
    }

    /** A value that Go holds has the id that Go holds it by. */
    lemma HeldBy(v: Js)
      requires Valid()
      ensures forall id :: held[id] > 0 ==> id in granted
      ensures forall id :: held[id] > 0 && id in granted && granted[id] == v ==> v in ids && ids[v] == id
    {
      hide Agree, Slot, Key, HeldOk;
      forall id | held[id] > 0 ensures id in granted { HeldKnown(id); }
      forall id | held[id] > 0 && id in granted && granted[id] == v ensures v in ids && ids[v] == id { HeldKnown(id); }
    }

    lemma HeldKnown(id: nat)
      requires Valid() && held[id] > 0
      ensures id in granted && granted[id] in ids && ids[granted[id]] == id
    {
      assert HeldOk(id) && Slot(values, goRefCounts, ids, idPool, held[id], held[id], id);
    }

    /** Go may hold one more reference to a value that has an id. */
    static lemma KnownAgrees(vals: seq<Js>, counts: seq<Count>, table: map<Js, nat>, pool: seq<nat>, held: multiset<nat>, v: Js)
      requires Agree(vals, counts, table, pool, held, held) && v in table
      ensures var id := table[v]; 1 <= id < |vals| && vals[id] == v && Agree(vals, counts, table, pool, held, held + multiset{id})
    {
      var id := table[v];
      var live := held + multiset{id};
      assert Key(vals, table, held, v);
      forall k | 0 <= k < |vals| ensures Slot(vals, counts, table, pool, held[k], live[k], k) {
        assert Slot(vals, counts, table, pool, held[k], held[k], k);
      }
      forall u | u in table ensures Key(vals, table, live, u) { assert Key(vals, table, held, u); }
      hide Slot, Key;
    }

    /** A new id for v, from the free list if it can be. */
    method Assign(v: Js) returns (id: nat)
      requires Valid() && !Inline(v) && v !in ids
      modifies `values, `goRefCounts, `ids, `idPool
      ensures Consistent(held + multiset{id}) && held[id] == 0 && 1 <= id < |values| && values[id] == v
    {
      hide Agree, Slot, Key;
      ghost var vals, counts, table, pool := values, goRefCounts, ids, idPool;
      id := NewId();
      if id == |values| {
        values, goRefCounts := values + [v], goRefCounts + [Finite(0)];
      } else {
        values, goRefCounts := values[id := v], goRefCounts[id := Finite(0)];
      }
      ids := ids[v := id];
      AssignAgrees(vals, counts, table, pool, values, goRefCounts, idPool, held, v, id);
      forall k | held[k] > 0 ensures HeldOk(k) { assert old(HeldOk(k)); }
    }

    /** this._idPool.pop(), or the next id. */
    method NewId() returns (id: nat)
      requires Valid()
      modifies `idPool
      ensures RESERVED_IDS <= id <= |values| == |goRefCounts| && held[id] == 0 && Popped(old(idPool), idPool, id)
    {
      assert |values| == |goRefCounts| && Distinct(idPool);
      if idPool != [] {
        id := idPool[|idPool| - 1];
        assert id in idPool;
        PoppedLast(idPool);
        idPool := idPool[..|idPool| - 1];
      } else {
        id := |values|;
        if held[id] > 0 { assert HeldOk(id); }
      }
    }

    static ghost predicate Popped(pool: seq<nat>, pool': seq<nat>, id: nat) {
      (forall k :: k in pool' <==> k in pool && k != id) && Distinct(pool')
    }

    static lemma PoppedLast(pool: seq<nat>)
      requires pool != [] && Distinct(pool)
      ensures Popped(pool, pool[..|pool| - 1], pool[|pool| - 1])
    {
      var init, id := pool[..|pool| - 1], pool[|pool| - 1];
      forall k ensures k in init <==> k in pool && k != id {
        if k in pool && k != id {
          var i :| 0 <= i < |pool| && pool[i] == k;
          assert init[i] == k;
        }
      }
    }

    static lemma AssignAgrees(vals: seq<Js>, counts: seq<Count>, table: map<Js, nat>, pool: seq<nat>,
                              vals': seq<Js>, counts': seq<Count>, pool': seq<nat>, held: multiset<nat>, v: Js, id: nat)
      requires Agree(vals, counts, table, pool, held, held) && !Inline(v) && v !in table
      requires RESERVED_IDS <= id <= |vals| && held[id] == 0 && Popped(pool, pool', id)
      requires if id == |vals| then vals' == vals + [v] && counts' == counts + [Finite(0)]
               else vals' == vals[id := v] && counts' == counts[id := Finite(0)]
      ensures id < |vals'| && vals'[id] == v && Agree(vals', counts', table[v := id], pool', held, held + multiset{id})
    {
      hide Slot, Key, Inline;
      var live, table' := held + multiset{id}, table[v := id];
      assert |vals'| == |counts'| >= |vals| && id < |vals'| && forall k :: 0 <= k < |vals| && k != id ==> vals'[k] == vals[k] && counts'[k] == counts[k];
      forall k | 0 <= k < |vals'| ensures Slot(vals', counts', table', pool', held[k], live[k], k) {
        if k != id {
          assert Slot(vals, counts, table, pool, held[k], held[k], k);
          SlotBeside(vals, counts, table, pool, vals', counts', pool', held[k], k, id, v);
        } else {
          SlotOfNew(vals', counts', table', pool', v, id);
        }
      }
      forall u | u in table' ensures Key(vals', table', live, u) {
        if u != v {
          assert Key(vals, table, held, u);
          KeyBeside(vals, table, vals', held, u, v, id);
        } else {
          KeyOfNew(vals', table', live, v, id);
        }
      }
    }

    /** Giving an id to v leaves the entries of other ids, and other values, alone. */
    static lemma SlotBeside(vals: seq<Js>, counts: seq<Count>, table: map<Js, nat>, pool: seq<nat>, vals': seq<Js>,
                            counts': seq<Count>, pool': seq<nat>, count: nat, k: nat, id: nat, v: Js)
      requires k < |vals| == |counts| <= |vals'| == |counts'| && |vals| >= |RESERVED| && k != id && v !in table
      requires Slot(vals, counts, table, pool, count, count, k) && vals'[k] == vals[k] && counts'[k] == counts[k] && (k in pool ==> k in pool')
      ensures Slot(vals', counts', table[v := id], pool', count, count, k)
    {
    }

    static lemma SlotOfNew(vals: seq<Js>, counts: seq<Count>, table: map<Js, nat>, pool: seq<nat>, v: Js, id: nat)
      requires RESERVED_IDS <= id < |vals| == |counts| && counts[id] == Finite(0) && vals[id] == v && v in table && table[v] == id
      ensures Slot(vals, counts, table, pool, 0, 1, id)
    {
    }

    static lemma KeyBeside(vals: seq<Js>, table: map<Js, nat>, vals': seq<Js>, held: multiset<nat>, u: Js, v: Js, id: nat)
      requires u in table && Key(vals, table, held, u) && u != v && id >= RESERVED_IDS && held[id] == 0
      requires |vals| <= |vals'| && forall k :: 0 <= k < |vals| && k != id ==> vals'[k] == vals[k]
      ensures Key(vals', table[v := id], held + multiset{id}, u)
    {
    }

    static lemma KeyOfNew(vals: seq<Js>, table: map<Js, nat>, live: multiset<nat>, v: Js, id: nat)
      requires v in table && table[v] == id && 1 <= id < |vals| && vals[id] == v && !Inline(v) && live[id] > 0
      ensures Key(vals, table, live, v)
    {
    }

    /** this._goRefCounts[id]++, the reference being handed to Go. */
    method CountUp(id: nat)
      requires Consistent(held + multiset{id}) && 1 <= id < |values| && (held[id] > 0 ==> id in granted && granted[id] == values[id])
      modifies `goRefCounts, `held, `granted
      ensures Valid() && held == old(held) + multiset{id} && granted == old(granted)[id := values[id]]
    {
      HeldMore(id);
      ghost var live, g := held + multiset{id}, granted[id := values[id]];
      assert |goRefCounts| == |values| && Agree(values, goRefCounts, ids, idPool, held, live);
      hide Agree, Slot, Key;
      goRefCounts := goRefCounts[id := Plus(goRefCounts[id], 1)];
      CountAgrees(values, old(goRefCounts), ids, idPool, held, live, live, id, 1);
      held, granted := live, g;
    }

    /** What Go holds stays good with one more reference to id. */
    lemma HeldMore(id: nat)
      requires Consistent(held + multiset{id}) && 1 <= id < |values| && (held[id] > 0 ==> id in granted && granted[id] == values[id])
      ensures var g := granted[id := values[id]];
        forall k :: (held + multiset{id})[k] > 0 ==> 1 <= k < |values| && k in g && g[k] == values[k]
    {
      hide Agree;
      var live := held + multiset{id};
      forall k | live[k] > 0 ensures k == id || (held[k] > 0 && HeldOk(k)) {}
    }

    /** The count of one id follows the references that Go holds. */
    static lemma CountAgrees(vals: seq<Js>, counts: seq<Count>, table: map<Js, nat>, pool: seq<nat>,
                             held: multiset<nat>, held': multiset<nat>, live: multiset<nat>, id: nat, d: int)
      requires Agree(vals, counts, table, pool, held, live) && id < |vals| && held'[id] == held[id] + d && live[id] > 0
      requires forall k :: k != id ==> held'[k] == held[k]
      ensures Agree(vals, counts[id := Plus(counts[id], d)], table, pool, held', live)
      ensures Plus(counts[id], d) == if id < RESERVED_IDS then Infinity else Finite(held'[id])
    {
      assert Slot(vals, counts, table, pool, held[id], live[id], id);
      var counts' := counts[id := Plus(counts[id], d)];
      forall k | 0 <= k < |vals| ensures Slot(vals, counts', table, pool, held'[k], live[k], k) {
        assert Slot(vals, counts, table, pool, held[k], live[k], k);
      }
      hide Slot, Key;
    }

    /** syscall/js.finalizeRef of a reference that Go holds. */
    method FinalizeRef(id: nat)
      requires Valid() && held[id] > 0
      modifies this
      ensures Valid() && held == old(held) - multiset{id} && granted == old(granted)
      ensures |values| == |old(values)|
      ensures forall k :: 0 <= k < |values| && (k < RESERVED_IDS || held[k] > 0) ==> values[k] == old(values[k])
    {
      hide Agree, Slot, Key, HeldOk;
      CountDown(id);
      if goRefCounts[id] == Finite(0) { Release(id); } else { Settle(id); }
    }

    /** this._goRefCounts[id]--. */
    method CountDown(id: nat)
      requires Valid() && held[id] > 0
      modifies `goRefCounts, `held
      ensures held == old(held) - multiset{id} && Consistent(held + multiset{id}) && 1 <= id < |values| == |goRefCounts|
      ensures goRefCounts[id] == if id < RESERVED_IDS then Infinity else Finite(held[id])
    {
      ghost var live, counts, less := held, goRefCounts, held - multiset{id};
      HeldLess(id);
      assert |goRefCounts| == |values| && Agree(values, goRefCounts, ids, idPool, held, live);
      hide Agree, Slot, Key, HeldOk;
      goRefCounts := goRefCounts[id := Plus(goRefCounts[id], -1)];
      CountAgrees(values, counts, ids, idPool, live, less, live, id, -1);
      held := less;
    }

    /** What Go holds stays good with one reference less to id. */
    lemma HeldLess(id: nat)
      requires Valid() && held[id] > 0
      ensures var less := held - multiset{id};
        && less + multiset{id} == held && less[id] == held[id] - 1 && (forall k :: k != id ==> less[k] == held[k])
        && (forall k :: less[k] > 0 ==> HeldOk(k) && held[k] > 0)
      ensures 1 <= id < |values|
    {
      hide Agree;
      assert HeldOk(id);
      var less := held - multiset{id};
      forall k | less[k] > 0 ensures held[k] > 0 && HeldOk(k) {}
    }

    /** The last reference is gone: forget the value and free the id. */
    method Release(id: nat)
      requires Consistent(held + multiset{id}) && held[id] == 0 && RESERVED_IDS <= id < |values|
      modifies `values, `ids, `idPool
      ensures Valid() && values == old(values)[id := Null]
    {
      hide Agree, Slot, Key;
      ghost var vals, table, pool := values, ids, idPool;
      var v := values[id];
      values := values[id := Null];
      ids := ids - {v};
      idPool := idPool + [id];
      ReleaseAgrees(vals, goRefCounts, table, pool, held, id);
      forall k | held[k] > 0 ensures HeldOk(k) { assert old(HeldOk(k)); }
    }

    static lemma ReleaseAgrees(vals: seq<Js>, counts: seq<Count>, table: map<Js, nat>, pool: seq<nat>, held: multiset<nat>, id: nat)
      requires Agree(vals, counts, table, pool, held, held + multiset{id}) && held[id] == 0 && RESERVED_IDS <= id < |vals|
      ensures Agree(vals[id := Null], counts, table - {vals[id]}, pool + [id], held, held)
    {
      var live, vals', table', pool' := held + multiset{id}, vals[id := Null], table - {vals[id]}, pool + [id];
      assert Slot(vals, counts, table, pool, held[id], live[id], id);
      forall k | 0 <= k < |vals'| ensures Slot(vals', counts, table', pool', held[k], held[k], k) {
        assert Slot(vals, counts, table, pool, held[k], live[k], k);
        if k != id && k > 0 && (k < RESERVED_IDS || held[k] > 0) { Different(vals, table, k, id); }
      }
      forall u | u in table' ensures Key(vals', table', held, u) { assert Key(vals, table, live, u); }
      hide Slot, Key;
    }

    /** References to the id are left. */
    lemma Settle(id: nat)
      requires Consistent(held + multiset{id}) && (id < RESERVED_IDS || held[id] > 0)
      ensures Valid()
    {
      var live := held + multiset{id};
      forall k | 0 <= k < |values| ensures Slot(values, goRefCounts, ids, idPool, held[k], held[k], k) {
        assert Slot(values, goRefCounts, ids, idPool, held[k], live[k], k);
      }
      forall u | u in ids ensures Key(values, ids, held, u) { assert Key(values, ids, live, u); }
      forall p | p in idPool ensures held[p] == 0 { assert live[p] == 0; }
      hide Slot, Key;
    }

    static lemma Different(vals: seq<Js>, table: map<Js, nat>, k: nat, id: nat)
      requires k < |vals| && id < |vals| && k != id && vals[k] in table && table[vals[k]] == k
      requires vals[id] in table && table[vals[id]] == id
      ensures vals[k] != vals[id]
    {
    }
  }
}
