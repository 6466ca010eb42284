/**
 * Value-level model of the callback table behind the cgo bridge: a counter
 * that is the last handle given out and a map from handle to the tagged
 * closure registered under it. Every operation of the table is a function
 * of the old table here; the class in module CfuncReg is proved against
 * these functions. The lemmas below state what holds of any history of
 * registrations and evictions (freshness, and what each handle resolves
 * to), and what holds of runs of registrations alone (sizes, and that
 * freeing them all restores the map).
 */
module RegistryTable {

  datatype Option<T> = None | Some(value: T)

  /** A registered closure: a scalar `Func` or a vector-valued `Mfunc`.
      The payloads are opaque and compared only for identity. */
  datatype Callback<F, M> = Scalar(f: F) | Vector(m: M)

  /** `counter` is the last handle issued (0 before the first one),
      `entries` the live bindings. */
  datatype Table<F, M> = Table(counter: nat, entries: map<nat, Callback<F, M>>)

  /** The table as the package initialises it: counter zero, no entries. */
  function Empty<F, M>(): Table<F, M>
  {
    Table(0, map[])
  }

  /** Every live handle is one that was issued: it lies in 1..counter. */
  predicate WellFormed<F, M>(t: Table<F, M>)
  {
    forall h | h in t.entries :: 1 <= h <= t.counter
  }

  /** Reading a handle: the stored closure, or `None` (Go's nil interface)
      when nothing is stored under it. */
  function Lookup<F, M>(t: Table<F, M>, h: nat): Option<Callback<F, M>>
  {
    if h in t.entries then Some(t.entries[h]) else None
  }

  /** Two tables whose lookups agree everywhere hold the same entries. */
  lemma LookupExtensional<F, M>(a: Table<F, M>, b: Table<F, M>)
    requires forall k: nat :: Lookup(a, k) == Lookup(b, k)
    ensures a.entries == b.entries
  {
    forall k | k in a.entries
      ensures k in b.entries && a.entries[k] == b.entries[k]
    {
      assert Lookup(a, k) == Lookup(b, k);
    }
    forall k | k in b.entries
      ensures k in a.entries
    {
      assert Lookup(a, k) == Lookup(b, k);
    }
  }

  /** Registration: pre-increment the counter and bind the closure under
      the new value, which is also the handle returned. */
  function Register<F, M>(t: Table<F, M>, cb: Callback<F, M>): (r: (Table<F, M>, nat))
    ensures r.1 == t.counter + 1 && r.0.counter == r.1
    ensures Lookup(r.0, r.1) == Some(cb)
    ensures forall k: nat :: k != r.1 ==> Lookup(r.0, k) == Lookup(t, k)
    ensures WellFormed(t) ==> r.1 !in t.entries && WellFormed(r.0)
    ensures WellFormed(t) ==> |r.0.entries| == |t.entries| + 1
  {
    var h := t.counter + 1;
    (Table(h, t.entries[h := cb]), h)
  }

  /** Eviction: Go's `delete`, which does nothing when the key is absent. */
  function Free<F, M>(t: Table<F, M>, h: nat): (r: Table<F, M>)
    ensures r.counter == t.counter
    ensures Lookup(r, h) == None
    ensures forall k: nat :: k != h ==> Lookup(r, k) == Lookup(t, k)
    ensures WellFormed(t) ==> WellFormed(r)
    ensures h !in t.entries ==> r == t
    ensures h in t.entries ==> |r.entries| == |t.entries| - 1
  {
    assert h !in t.entries ==> t.entries - {h} == t.entries;
    Table(t.counter, t.entries - {h})
  }

  /** Freeing twice is the same as freeing once. */
  lemma FreeIdempotent<F, M>(t: Table<F, M>, h: nat)
    ensures Free(Free(t, h), h) == Free(t, h)
  {
  }

  /** Scalar and vector registrations draw on one counter, so a `Func`
      handle and an `Mfunc` handle registered one after the other differ,
      and each resolves to its own variant. */
  lemma ScalarAndVectorHandlesDiffer<F, M>(t: Table<F, M>, f: F, m: M)
    ensures var (t1, h1) := Register(t, Scalar(f));
            var (t2, h2) := Register(t1, Vector(m));
            h1 != h2 && Lookup(t2, h1) == Some(Scalar(f)) && Lookup(t2, h2) == Some(Vector(m))
  {
  }

  /** Registering a sequence of closures in order; the second component is
      the handles issued, one per closure. */
  function RegisterMany<F, M>(t: Table<F, M>, cbs: seq<Callback<F, M>>): (r: (Table<F, M>, seq<nat>))
    ensures |r.1| == |cbs|
    ensures r.0.counter == t.counter + |cbs|
    decreases |cbs|
  {
    if cbs == [] then (t, [])
    else
      var (t1, h) := Register(t, cbs[0]);
      var (t2, hs) := RegisterMany(t1, cbs[1..]);
      (t2, [h] + hs)
  }

  /** The i-th registration receives handle counter + 1 + i: successive
      handles are strictly increasing, pairwise distinct and never 0. */
  lemma {:induction false} RegisterManyHandles<F, M>(t: Table<F, M>, cbs: seq<Callback<F, M>>)
    ensures forall i | 0 <= i < |cbs| :: RegisterMany(t, cbs).1[i] == t.counter + 1 + i
    decreases |cbs|
  {
    if cbs != [] {
      var (t1, h) := Register(t, cbs[0]);
      RegisterManyHandles(t1, cbs[1..]);
    }
  }

  /** For N sequential registrations, the N handles are pairwise distinct,
      increasing, and at least 1. */
  lemma RegisteredHandlesDistinct<F, M>(t: Table<F, M>, cbs: seq<Callback<F, M>>)
    ensures var hs := RegisterMany(t, cbs).1;
            (forall i | 0 <= i < |hs| :: 1 <= hs[i]) &&
            (forall i, j | 0 <= i < j < |hs| :: hs[i] < hs[j])
  {
    RegisterManyHandles(t, cbs);
  }

  /** After registering a sequence of closures, each handle resolves to the
      closure registered under it, every binding that was there before is
      unchanged, and, in a well-formed table, the size grows by exactly the
      number of registrations. */
  lemma {:induction false} RegisterManyEntries<F, M>(t: Table<F, M>, cbs: seq<Callback<F, M>>)
    ensures var (r, hs) := RegisterMany(t, cbs);
            forall i | 0 <= i < |cbs| :: Lookup(r, hs[i]) == Some(cbs[i])
    ensures forall k: nat | k <= t.counter :: Lookup(RegisterMany(t, cbs).0, k) == Lookup(t, k)
    ensures WellFormed(t) ==> WellFormed(RegisterMany(t, cbs).0)
    ensures WellFormed(t) ==> |RegisterMany(t, cbs).0.entries| == |t.entries| + |cbs|
    decreases |cbs|
  {
    if cbs != [] {
      var (t1, h) := Register(t, cbs[0]);
      RegisterManyEntries(t1, cbs[1..]);
      RegisterManyHandles(t1, cbs[1..]);
      var (r, hs) := RegisterMany(t, cbs);
      assert hs == [h] + RegisterMany(t1, cbs[1..]).1;
      forall i | 0 <= i < |cbs|
        ensures Lookup(r, hs[i]) == Some(cbs[i])
      {
        if i > 0 {
          assert hs[i] == RegisterMany(t1, cbs[1..]).1[i - 1];
          assert cbs[i] == cbs[1..][i - 1];
        }
      }
    }
  }

  /** Evicting a sequence of handles in order. */
  function FreeMany<F, M>(t: Table<F, M>, hs: seq<nat>): (r: Table<F, M>)
    ensures r.counter == t.counter
    ensures forall k: nat :: Lookup(r, k) == if k in hs then None else Lookup(t, k)
    ensures WellFormed(t) ==> WellFormed(r)
    decreases |hs|
  {
    if hs == [] then t else FreeMany(Free(t, hs[0]), hs[1..])
  }

  /** The handles issued by a run of registrations are exactly the values
      just above the counter it started from. */
  lemma RegisteredHandlesRange<F, M>(t: Table<F, M>, cbs: seq<Callback<F, M>>, k: nat)
    ensures k in RegisterMany(t, cbs).1 <==> t.counter < k <= t.counter + |cbs|
  {
    var hs := RegisterMany(t, cbs).1;
    RegisterManyHandles(t, cbs);
    if t.counter < k <= t.counter + |cbs| {
      assert hs[k - t.counter - 1] == k;
    }
  }

  /** Freeing every handle registered since a well-formed state restores
      that state's entries; only the counter has moved on. */
  lemma FreeRegisteredRestores<F, M>(t: Table<F, M>, cbs: seq<Callback<F, M>>)
    requires WellFormed(t)
    ensures var (r, hs) := RegisterMany(t, cbs);
            FreeMany(r, hs).entries == t.entries && FreeMany(r, hs).counter == t.counter + |cbs|
  {
    var (r, hs) := RegisterMany(t, cbs);
    RegisterManyEntries(t, cbs);
    var back := FreeMany(r, hs);
    forall k: nat
      ensures Lookup(back, k) == Lookup(t, k)
    {
      RegisteredHandlesRange(t, cbs, k);
      if k in hs {
        assert k !in t.entries;
      } else if k <= t.counter {
        assert Lookup(back, k) == Lookup(r, k);
      } else {
        assert k !in r.entries;
      }
    }
    LookupExtensional(back, t);
  }

  /** From the package's initial table, registering closures and then
      freeing all of them leaves no entry behind. */
  lemma EmptyAfterFreeingAll<F, M>(cbs: seq<Callback<F, M>>)
    ensures var (r, hs) := RegisterMany(Empty<F, M>(), cbs);
            |r.entries| == |cbs| && FreeMany(r, hs).entries == map[]
  {
    RegisterManyEntries(Empty<F, M>(), cbs);
    FreeRegisteredRestores(Empty<F, M>(), cbs);
  }

  /** One step of a sequential history of the registry. */
  datatype Op<F, M> = Reg(cb: Callback<F, M>) | Del(h: nat)

  /** One operation applied to a table, with the handles it issues. */
  function Step<F, M>(t: Table<F, M>, op: Op<F, M>): (r: (Table<F, M>, seq<nat>))
    ensures r.0.counter == t.counter + |r.1|
  {
    match op
    case Reg(cb) =>
      var (t1, h) := Register(t, cb);
      (t1, [h])
    case Del(h) => (Free(t, h), [])
  }

  /** Running a history of registrations and evictions; the second
      component lists the handles issued, in order. */
  function Run<F, M>(t: Table<F, M>, ops: seq<Op<F, M>>): (r: (Table<F, M>, seq<nat>))
    ensures r.0.counter == t.counter + |r.1|
    decreases |ops|
  {
    if ops == [] then (t, [])
    else
      var s := Step(t, ops[0]);
      var rest := Run(s.0, ops[1..]);
      (rest.0, s.1 + rest.1)
  }

  /** Whatever evictions are interleaved, the handles issued by a history
      are counter + 1, counter + 2, ...: never reused, and every one above
      the counter the history started from. Well-formedness is kept. */
  lemma {:induction false} RunIssuesFresh<F, M>(t: Table<F, M>, ops: seq<Op<F, M>>)
    ensures forall i | 0 <= i < |Run(t, ops).1| :: Run(t, ops).1[i] == t.counter + 1 + i
    ensures WellFormed(t) ==> WellFormed(Run(t, ops).0)
    decreases |ops|
  {
    if ops != [] {
      match ops[0]
      case Reg(cb) =>
        var (t1, h) := Register(t, cb);
        RunIssuesFresh(t1, ops[1..]);
        var hs, rest := Run(t, ops).1, Run(t1, ops[1..]).1;
        assert hs == [h] + rest;
        forall i | 0 < i < |hs|
          ensures hs[i] == t.counter + 1 + i
        {
          assert hs[i] == rest[i - 1];
        }
      case Del(h) =>
        RunIssuesFresh(Free(t, h), ops[1..]);
        var rest := Run(Free(t, h), ops[1..]);
        assert Run(t, ops) == (rest.0, [] + rest.1);
        assert [] + rest.1 == rest.1;
    }
  }

  /** A handle at or below the counter that holds no entry stays absent for
      the rest of any history, and no later registration issues it. */
  lemma {:induction false} StaleStaysAbsent<F, M>(t: Table<F, M>, h: nat, ops: seq<Op<F, M>>)
    requires h <= t.counter && h !in t.entries
    ensures h !in Run(t, ops).0.entries
    ensures h !in Run(t, ops).1
    decreases |ops|
  {
    RunIssuesFresh(t, ops);
    if ops != [] {
      match ops[0]
      case Reg(cb) =>
        var (t1, h1) := Register(t, cb);
        StaleStaysAbsent(t1, h, ops[1..]);
      case Del(d) =>
        StaleStaysAbsent(Free(t, d), h, ops[1..]);
    }
  }

  /** A freed handle is never reissued and never resolves again, whatever
      history follows the eviction. */
  lemma FreedNeverReissued<F, M>(t: Table<F, M>, h: nat, ops: seq<Op<F, M>>)
    requires WellFormed(t) && h in t.entries
    ensures Lookup(Run(Free(t, h), ops).0, h) == None
    ensures h !in Run(Free(t, h), ops).1
  {
    StaleStaysAbsent(Free(t, h), h, ops);
  }

  /** The number of registrations in a history. */
  function RegCount<F, M>(ops: seq<Op<F, M>>): nat
    decreases |ops|
  {
    if ops == [] then 0 else (if ops[0].Reg? then 1 else 0) + RegCount(ops[1..])
  }

  lemma ConcatAssociative(a: seq<nat>, b: seq<nat>, c: seq<nat>)
    ensures a + (b + c) == (a + b) + c
  {
  }

  /** Running a history one operation longer is one more step. */
  lemma {:induction false} RunSnoc<F, M>(t: Table<F, M>, ops: seq<Op<F, M>>, op: Op<F, M>)
    ensures var r := Run(t, ops);
            var s := Step(r.0, op);
            Run(t, ops + [op]) == (s.0, r.1 + s.1)
    decreases |ops|
  {
    var longer := ops + [op];
    if ops == [] {
      var s := Step(t, op);
      assert longer == [op] && longer[1..] == [];
      assert Run(t, longer) == (Run(s.0, []).0, s.1 + Run(s.0, []).1);
      assert s.1 + [] == [] + s.1;
    } else {
      assert longer[0] == ops[0];
      assert longer[1..] == ops[1..] + [op];
      var first := Step(t, ops[0]);
      RunSnoc(first.0, ops[1..], op);
      var mid := Run(first.0, ops[1..]);
      var last := Step(mid.0, op);
      ConcatAssociative(first.1, mid.1, last.1);
    }
  }

  /** The counter after a history has advanced once per registration in it. */
  lemma {:induction false} RunCounter<F, M>(t: Table<F, M>, ops: seq<Op<F, M>>)
    ensures Run(t, ops).0.counter == t.counter + RegCount(ops)
    decreases |ops|
  {
    if ops != [] {
      match ops[0]
      case Reg(cb) =>
        RunCounter(Register(t, cb).0, ops[1..]);
      case Del(h) =>
        RunCounter(Free(t, h), ops[1..]);
    }
  }

  /** Reference reading of handle `k` after a history, found by scanning
      it backwards for the last operation that touches `k`: the closure of
      the registration that issued `k`, nothing after `Del(k)`, and the
      starting table's binding when no operation touches `k`. The handle the
      j-th operation would issue is the starting counter plus one plus the
      number of registrations before it. */
  function LastTouch<F, M>(t: Table<F, M>, ops: seq<Op<F, M>>, k: nat): Option<Callback<F, M>>
    decreases |ops|
  {
    if ops == [] then Lookup(t, k)
    else
      var init := ops[..|ops| - 1];
      match ops[|ops| - 1]
      case Reg(cb) => if t.counter + RegCount(init) + 1 == k then Some(cb) else LastTouch(t, init, k)
      case Del(h) => if h == k then None else LastTouch(t, init, k)
  }

  /** After any history of registrations and evictions, a handle resolves
      to exactly what the last operation touching it left there. */
  lemma {:induction false} RunLookup<F, M>(t: Table<F, M>, ops: seq<Op<F, M>>, k: nat)
    ensures Lookup(Run(t, ops).0, k) == LastTouch(t, ops, k)
    decreases |ops|
  {
    if ops != [] {
      var init, last := ops[..|ops| - 1], ops[|ops| - 1];
      assert ops == init + [last];
      RunSnoc(t, init, last);
      RunCounter(t, init);
      RunLookup(t, init, k);
    }
  }
}
