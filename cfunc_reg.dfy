/**
 * The package-level callback registry: the counter `funcPtr` and the map
 * `funcMap` as fields of one object, updated in place by its methods.
 * Each method is proved against the table functions of RegistryTable;
 * `ReplayHistory` composes those contracts, so that the lemmas proved
 * there about histories hold of the calls made here.
 */
module CfuncReg {
  import opened RegistryTable

  class Registry<F(==), M(==)> {
    var funcPtr: nat
    var funcMap: map<nat, Callback<F, M>>

    /** The registry's current state as a table value. */
    ghost function State(): Table<F, M>
      reads this
    {
      Table(funcPtr, funcMap)
    }

    /** The invariant every method keeps: each live key is in 1..funcPtr. */
    ghost predicate Valid()
      reads this
    {
      WellFormed(State())
    }

    /** The zero values the package starts from. */
    constructor ()
      ensures Valid()
      ensures State() == Empty()
    {
      funcPtr := 0;
      funcMap := map[];
    }

    /** Pre-increments the counter, binds `cb` under the new value and
        returns it. The handle was free and the map grows by one. */
    method SetFuncMapEntry(cb: Callback<F, M>) returns (h: nat)
      requires Valid()
      modifies this
      ensures Valid()
      ensures (State(), h) == Register(old(State()), cb)
      ensures h == old(funcPtr) + 1 && funcPtr == h
      ensures h !in old(funcMap) && funcMap == old(funcMap)[h := cb]
      ensures |funcMap| == |old(funcMap)| + 1
    {
      funcPtr := funcPtr + 1;
      funcMap := funcMap[funcPtr := cb];
      h := funcPtr;
    }

    /** Registers a scalar closure. */
    method MakeFuncPtr(f: F) returns (h: nat)
      requires Valid()
      modifies this
      ensures Valid()
      ensures (State(), h) == Register(old(State()), Scalar(f))
      ensures h !in old(funcMap) && funcMap == old(funcMap)[h := Scalar(f)]
    {
      h := SetFuncMapEntry(Scalar(f));
    }

    /** Registers a vector-valued closure; it shares the counter with
        the scalar ones. */
    method MakeMfuncPtr(m: M) returns (h: nat)
      requires Valid()
      modifies this
      ensures Valid()
      ensures (State(), h) == Register(old(State()), Vector(m))
      ensures h !in old(funcMap) && funcMap == old(funcMap)[h := Vector(m)]
    {
      h := SetFuncMapEntry(Vector(m));
    }

    /** Reads a handle without changing anything: the stored closure, or
        `None` (a nil interface) when the handle holds nothing. */
    method GetFuncMapEntry(h: nat) returns (r: Option<Callback<F, M>>)
      ensures r == Lookup(State(), h)
      ensures r.Some? <==> h in funcMap
    {
      if h in funcMap {
        r := Some(funcMap[h]);
      } else {
        r := None;
      }
    }

    /** Resolves a handle to the scalar closure stored under it. An absent
        handle or a vector entry would make the type assertion panic. */
    method GetFunc(h: nat) returns (f: F)
      requires h in funcMap && funcMap[h].Scalar?
      ensures Lookup(State(), h) == Some(Scalar(f))
    {
      var entry := GetFuncMapEntry(h);
      f := entry.value.f;
    }

    /** Resolves a handle to the vector closure stored under it. An absent
        handle or a scalar entry would make the type assertion panic. */
    method GetMfunc(h: nat) returns (m: M)
      requires h in funcMap && funcMap[h].Vector?
      ensures Lookup(State(), h) == Some(Vector(m))
    {
      var entry := GetFuncMapEntry(h);
      m := entry.value.m;
    }

    /** Deletes the entry under `h`, if there is one; the counter and all
        other bindings stay as they are. */
    method FreeFuncPtr(h: nat)
      requires Valid()
      modifies this
      ensures Valid()
      ensures State() == Free(old(State()), h)
      ensures funcPtr == old(funcPtr) && funcMap == old(funcMap) - {h}
    {
      funcMap := funcMap - {h};
    }
  }

  /** The registry side of installing one objective and destroying its
      optimizer: from a fresh registry, registering a scalar closure makes
      the map non-empty and resolvable to that closure, and freeing the
      handle empties the map again; the handle is never reissued. */
  method ObjectiveLifecycle<F(==), M(==)>(obj: F, next: M)
    returns (h: nat, resolved: F, liveAfterSet: nat, liveAfterDestroy: nat, h2: nat)
    ensures h == 1 && resolved == obj
    ensures liveAfterSet == 1 && liveAfterDestroy == 0
    ensures h2 != h
  {
    var reg := new Registry<F, M>();
    h := reg.MakeFuncPtr(obj);
    liveAfterSet := |reg.funcMap|;
    resolved := reg.GetFunc(h);
    reg.FreeFuncPtr(h);
    liveAfterDestroy := |reg.funcMap|;
    h2 := reg.MakeMfuncPtr(next);
  }

  /** Drives a fresh registry through a history of registrations (through
      `makeFuncPtr` or `makeMfuncPtr`, by the closure's variant) and
      evictions. The registry ends in the state `Run` computes from the
      initial table, and the handles returned are those `Run` issues. */
  method ReplayHistory<F(==), M(==)>(ops: seq<Op<F, M>>) returns (reg: Registry<F, M>, issued: seq<nat>)
    ensures reg.Valid()
    ensures (reg.State(), issued) == Run(Empty(), ops)
  {
    reg := new Registry<F, M>();
    issued := [];
    var i := 0;
    while i < |ops|
      invariant 0 <= i <= |ops|
      invariant reg.Valid()
      invariant (reg.State(), issued) == Run(Empty(), ops[..i])
    {
      RunSnoc(Empty(), ops[..i], ops[i]);
      ghost var before, issuedBefore := reg.State(), issued;
      match ops[i] {
        case Reg(Scalar(f)) =>
          var h := reg.MakeFuncPtr(f);
          issued := issued + [h];
        case Reg(Vector(m)) =>
          var h := reg.MakeMfuncPtr(m);
          issued := issued + [h];
        case Del(h) =>
          reg.FreeFuncPtr(h);
          assert issued + Step(before, ops[i]).1 == issued;
      }
      assert (reg.State(), issued) == (Step(before, ops[i]).0, issuedBefore + Step(before, ops[i]).1);
      assert ops[..i + 1] == ops[..i] + [ops[i]];
      i := i + 1;
    }
    assert ops[..|ops|] == ops;
  }
}
