/** Ownership of type objects (re0_sema_own_type and re0_sema_destroy in src/analysis/sema.c). Objects are
    known by address; they may share parts, and parts may even be circular. */
module OwnedTypes {
  import opened Wrappers
  import opened Counting

  /** The parts a type object refers to directly. */
  datatype Shape =
    | Leaf
    | Inner(inner: Option<nat>)                             // array, slice, vec, reference, pointer
    | Tuple(elems: seq<Option<nat>>)
    | Function(ret: Option<nat>, params: seq<Option<nat>>)
    | Generic(args: seq<Option<nat>>)

  /** Whether the object was allocated on the heap, and its parts. */
  datatype TypeObject = TypeObject(owned: bool, shape: Shape)

  type Store = seq<TypeObject>

  /** Parts in the order they are registered; None is a null pointer. */
  function Parts(s: Shape): seq<Option<nat>> {
    match s
    case Leaf => []
    case Inner(inner) => [inner]
    case Tuple(elems) => elems
    case Function(ret, params) => [ret] + params
    case Generic(args) => args
  }

  /** No dangling pointers. */
  ghost predicate Linked(store: Store) {
    forall t: nat, c: nat {:trigger Part(store, t, c)} :: Part(store, t, c) ==> c < |store|
  }

  predicate Part(store: Store, t: nat, c: nat) { t < |store| && Some(c) in Parts(store[t].shape) }

  /** Element and pointee types, components, arguments, parameters and the result are parts; nothing else is. */
  lemma {:induction false} PartMeaning(store: Store, t: nat, c: nat)
    requires t < |store|
    ensures var s := store[t].shape;
      Part(store, t, c) <==>
        || (s.Inner? && s.inner == Some(c)) || (s.Tuple? && exists i :: 0 <= i < |s.elems| && s.elems[i] == Some(c))
        || (s.Function? && (s.ret == Some(c) || exists i :: 0 <= i < |s.params| && s.params[i] == Some(c)))
        || (s.Generic? && exists i :: 0 <= i < |s.args| && s.args[i] == Some(c))
  {
    var s := store[t].shape;
    if s.Function? && exists i :: 0 <= i < |s.params| && s.params[i] == Some(c) {
      assert Some(c) in s.params;
    }
  }

  predicate IsOwned(store: Store, t: nat) { t < |store| && store[t].owned }

  // ----- reachability through owned objects -----

  ghost predicate OwnedPath(store: Store, path: seq<nat>) {
    && path != [] && (forall i :: 0 <= i < |path| ==> IsOwned(store, path[i]))
    && forall i :: 0 <= i < |path| - 1 ==> Part(store, path[i], path[i + 1])
  }

  ghost predicate Reaches(store: Store, from: nat, to: nat) {
    exists path :: OwnedPath(store, path) && path[0] == from && path[|path| - 1] == to
  }

  lemma {:induction false} ReachesSelf(store: Store, t: nat)
    requires IsOwned(store, t)
    ensures Reaches(store, t, t)
  {
    assert OwnedPath(store, [t]);
  }

  lemma {:induction false} ReachesVia(store: Store, t: nat, c: nat, n: nat)
    requires IsOwned(store, t) && Part(store, t, c) && Reaches(store, c, n)
    ensures Reaches(store, t, n)
  {
    var path :| OwnedPath(store, path) && path[0] == c && path[|path| - 1] == n;
    assert OwnedPath(store, [t] + path);
  }

  /** A set that contains the owned parts of its members contains all they reach. */
  ghost predicate Closed(store: Store, s: set<nat>) {
    forall t, c :: t in s && Part(store, t, c) && IsOwned(store, c) ==> c in s
  }

  lemma {:induction false} ClosedContains(store: Store, s: set<nat>, path: seq<nat>)
    requires Closed(store, s) && OwnedPath(store, path) && path[0] in s
    ensures path[|path| - 1] in s
    decreases |path|
  {
    if |path| > 1 {
      assert Part(store, path[0], path[1]);
      var rest := path[1..];
      assert OwnedPath(store, rest) by {
        forall i | 0 <= i < |rest| - 1
          ensures Part(store, rest[i], rest[i + 1])
        {
          assert Part(store, path[i + 1], path[i + 2]);
        }
      }
      ClosedContains(store, s, rest);
    }
  }

  // ----- the register -----

  function Members(s: seq<nat>): set<nat> { set t | t in s }

  class Register {
    const store: Store
    var owned: seq<nat>

    constructor (store: Store)
      requires Linked(store)
      ensures this.store == store && owned == [] && Valid() && ClosedBut({})
    {
      this.store := store;
      owned := [];
    }

    /** Owned objects only, none twice. */
    ghost predicate Valid()
      reads this
    {
      Linked(store) && Distinct(owned) && forall t :: t in owned ==> IsOwned(store, t)
    }

    /** Everything registered has its owned parts registered, except for the objects still being worked on. */
    ghost predicate ClosedBut(pending: set<nat>)
      reads this
    {
      forall t, c :: t in owned && t !in pending && Part(store, t, c) && IsOwned(store, c) ==> c in owned
    }

    /** Register an object and what it refers to. Ends because every call that goes on registers one more object. */
    method Own(t: Option<nat>, ghost pending: set<nat>)
      requires Valid() && ClosedBut(pending) && (t.Some? ==> t.value < |store|)
      modifies this
      ensures Valid() && ClosedBut(pending) && old(owned) <= owned
      ensures t.Some? && IsOwned(store, t.value) ==> t.value in owned
      ensures forall n :: n in owned ==> n in old(owned) || (t.Some? && Reaches(store, t.value, n))
      decreases |store| - |owned|
    {
      RegisterFits(store, owned);
      if t == None || !store[t.value].owned { return; }
      if t.value in owned { return; }
      ghost var before := owned;
      owned := owned + [t.value];
      RegisterFits(store, owned);
      ReachesSelf(store, t.value);
      var parts := Parts(store[t.value].shape);
      ghost var during := pending + {t.value};
      var i := 0;
      while i < |parts|
        invariant 0 <= i <= |parts| && Valid() && ClosedBut(during)
        invariant before + [t.value] <= owned
        invariant forall j :: 0 <= j < i && parts[j].Some? && IsOwned(store, parts[j].value) ==> parts[j].value in owned
        invariant forall n :: n in owned ==> n in before || Reaches(store, t.value, n)
      {
        ghost var now := owned;
        assert parts[i] in parts;
        if parts[i].Some? { assert Part(store, t.value, parts[i].value); }
        Own(parts[i], during);
        forall n | n in owned
          ensures n in before || Reaches(store, t.value, n)
        {
          if n !in now { ReachesVia(store, t.value, parts[i].value, n); }
        }
        i := i + 1;
      }
      assert owned[|before|] == t.value;
      Settled(t.value, pending);
    }

    lemma {:induction false} Settled(t: nat, pending: set<nat>)
      requires Valid() && ClosedBut(pending + {t}) && t < |store|
      requires forall j :: 0 <= j < |Parts(store[t].shape)| && Parts(store[t].shape)[j].Some? && IsOwned(store, Parts(store[t].shape)[j].value)
                 ==> Parts(store[t].shape)[j].value in owned
      ensures ClosedBut(pending)
    {
      forall s, c | s in owned && s !in pending && Part(store, s, c) && IsOwned(store, c)
        ensures c in owned
      {
        if s == t {
          var j :| 0 <= j < |Parts(store[t].shape)| && Parts(store[t].shape)[j] == Some(c);
        }
      }
    }

    /** A call from outside: exactly the owned objects the argument reaches through owned objects are added. */
    method OwnType(t: Option<nat>)
      requires Valid() && ClosedBut({}) && (t.Some? ==> t.value < |store|)
      modifies this
      ensures Valid() && ClosedBut({}) && old(owned) <= owned
      ensures forall n :: n in owned <==> n in old(owned) || (t.Some? && Reaches(store, t.value, n))
    {
      Own(t, {});
      forall n | t.Some? && Reaches(store, t.value, n)
        ensures n in owned
      {
        var path :| OwnedPath(store, path) && path[0] == t.value && path[|path| - 1] == n;
        ClosedContains(store, Members(owned), path);
      }
    }

    /** Release everything on the list: each object once, and none that is not on it. */
    method Destroy() returns (freed: seq<nat>)
      requires Valid()
      modifies this
      ensures owned == [] && forall n :: multiset(freed)[n] == if n in old(owned) then 1 else 0
    {
      freed := [];
      var i := 0;
      while i < |owned|
        invariant 0 <= i <= |owned| && owned == old(owned) && freed == owned[..i]
      {
        assert IsOwned(store, owned[i]);
        if store[owned[i]].owned { freed := freed + [owned[i]]; }
        i := i + 1;
      }
      assert freed == owned;
      DistinctOnce(owned);
      owned := [];
    }
  }

  lemma {:induction false} RegisterFits(store: Store, owned: seq<nat>)
    requires Distinct(owned) && forall t :: t in owned ==> IsOwned(store, t)
    ensures |owned| <= |store|
  {
    DistinctFits(owned, Upto(|store|));
  }

  lemma {:induction false} DistinctOnce(s: seq<nat>)
    requires Distinct(s)
    ensures forall n :: multiset(s)[n] == if n in s then 1 else 0
  {
    if s != [] {
      var front, last := s[..|s| - 1], s[|s| - 1];
      DistinctOnce(front);
      assert s == front + [last];
    }
  }
}
