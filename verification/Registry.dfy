/**
 * The global registry: a string-keyed store of variables and dynamic
 * functions. Keys are inserted only when absent by `set` and
 * `registerFunction`, the subscript setter overwrites, and entries leave the
 * store one at a time, by name, or all the functions registered by one
 * target at once.
 *
 * Stored values, closure bodies and target objects are opaque here: a
 * value, a body and an object are each known only by an identity.
 */
module Registry {
  import opened Wrappers

  /** A stored value of any type. */
  type AnyValue = int
  /** A closure, known only by its identity. */
  type FunctionId = int
  /** An object, compared by identity (`===`). */
  type ObjectId = int

  /** What the store holds under a key: a variable, or a function together
    * with the object that registered it. */
  datatype Entry =
    | Variable(name: string, value: Option<AnyValue>)
    | DynamicFunction(name: string, body: FunctionId, target: Option<ObjectId>)

  /** Calling an entry: a variable yields its value whatever the arguments;
    * a function yields what its body returns, `bodyResult`. */
  function Call(e: Entry, bodyResult: Option<AnyValue>): (r: Option<AnyValue>)
    ensures e.Variable? ==> r == e.value
    ensures e.DynamicFunction? ==> r == bodyResult
  {
    match e
    case Variable(_, value) => value
    case DynamicFunction(_, _, _) => bodyResult
  }

  // ---------------------------------------------------------------------
  // The store updates, as functions on maps
  // ---------------------------------------------------------------------

  /** Insertion that leaves an existing key alone. */
  function InsertIfAbsent(m: map<string, Entry>, key: string, e: Entry): map<string, Entry>
  {
    if key in m then m else m[key := e]
  }

  /** The subscript setter: overwrite on a value, do nothing on nil. */
  function Assigned(m: map<string, Entry>, key: string, e: Option<Entry>): map<string, Entry>
  {
    if e.Some? then m[key := e.value] else m
  }

  /** Whether `deregisterAll(forTarget: target)` removes the entry: it is a
    * function registered by the identical object (nil matches nil). */
  predicate RegisteredBy(e: Entry, target: Option<ObjectId>)
  {
    e.DynamicFunction? && e.target == target
  }

  /** The store with every function registered by `target` removed. */
  function WithoutTarget(m: map<string, Entry>, target: Option<ObjectId>): map<string, Entry>
  {
    map k | k in m && !RegisteredBy(m[k], target) :: m[k]
  }

  /** Every entry is stored under its own name. */
  predicate NamesMatch(m: map<string, Entry>)
  {
    forall k :: k in m ==> m[k].name == k
  }

  /** Inserting when absent adds the key if it was missing and otherwise
    * changes nothing; no other key is affected. */
  lemma InsertIfAbsentEffect(m: map<string, Entry>, key: string, e: Entry, other: string)
    ensures key in InsertIfAbsent(m, key, e)
    ensures InsertIfAbsent(m, key, e)[key] == if key in m then m[key] else e
    ensures key in m <==> InsertIfAbsent(m, key, e) == m
    ensures other != key ==>
              (other in InsertIfAbsent(m, key, e) <==> other in m) &&
              (other in m ==> InsertIfAbsent(m, key, e)[other] == m[other])
  {
    if key !in m {
      assert key in InsertIfAbsent(m, key, e) && key !in m;
    }
  }

  /** The subscript setter stores a given entry under the key, overwriting
    * whatever was there; nil leaves the store as it was and deletes nothing. */
  lemma AssignedEffect(m: map<string, Entry>, key: string, e: Option<Entry>, other: string)
    ensures e.None? ==> Assigned(m, key, e) == m
    ensures e.Some? ==> key in Assigned(m, key, e) && Assigned(m, key, e)[key] == e.value
    ensures other != key ==>
              (other in Assigned(m, key, e) <==> other in m) &&
              (other in m ==> Assigned(m, key, e)[other] == m[other])
  {
  }

  /** `deregisterAll` removes exactly the functions registered by the target:
    * variables and functions of other targets keep their entries, and
    * repeating it removes nothing more. */
  lemma WithoutTargetEffect(m: map<string, Entry>, target: Option<ObjectId>, k: string)
    ensures k in WithoutTarget(m, target) <==> k in m && !RegisteredBy(m[k], target)
    ensures k in WithoutTarget(m, target) ==> WithoutTarget(m, target)[k] == m[k]
    ensures forall j :: j in WithoutTarget(m, target) ==> !RegisteredBy(WithoutTarget(m, target)[j], target)
    ensures WithoutTarget(WithoutTarget(m, target), target) == WithoutTarget(m, target)
    ensures WithoutTarget(m, target).Keys <= m.Keys
  {
  }

  /** `set`, `registerFunction`, removal and both deregistrations keep every
    * entry under its own name; the subscript setter keeps that only when the
    * entry it stores carries the key as its name. */
  lemma NamesMatchPreserved(m: map<string, Entry>, key: string, value: Option<AnyValue>,
                            body: FunctionId, target: Option<ObjectId>, e: Entry)
    requires NamesMatch(m)
    ensures NamesMatch(InsertIfAbsent(m, key, Variable(key, value)))
    ensures NamesMatch(InsertIfAbsent(m, key, DynamicFunction(key, body, target)))
    ensures NamesMatch(m - {key})
    ensures NamesMatch(WithoutTarget(m, target))
    ensures NamesMatch(Assigned(m, key, Some(e))) <==> e.name == key
  {
    if NamesMatch(Assigned(m, key, Some(e))) {
      assert Assigned(m, key, Some(e))[key] == e;
    }
  }

  // ---------------------------------------------------------------------
  // The registry object
  // ---------------------------------------------------------------------

  class Global {
    /** The registered variables and functions. */
    var store: map<string, Entry>

    constructor()
      ensures store == map[]
    {
      store := map[];
    }

    /** The dynamic-member lookup and the subscript getter: the entry under
      * `name`, nil when there is none. */
    function Lookup(name: string): (r: Option<Entry>)
      reads this
      ensures r.None? <==> name !in store
      ensures r.Some? ==> r.value == store[name]
    {
      if name in store then Some(store[name]) else None
    }

    /** `value(forKey:)`: what calling the entry under `key` yields, nil when
      * there is no entry. `bodyResult` is what a function's body returns. */
    function Value(key: string, bodyResult: Option<AnyValue>): (r: Option<AnyValue>)
      reads this
      ensures key !in store ==> r.None?
      ensures key in store && store[key].Variable? ==> r == store[key].value
      ensures key in store && store[key].DynamicFunction? ==> r == bodyResult
    {
      match Lookup(key)
      case None => None
      case Some(e) => Call(e, bodyResult)
    }

    /** The subscript setter. */
    method Assign(name: string, newValue: Option<Entry>)
      modifies this
      ensures store == Assigned(old(store), name, newValue)
    {
      if newValue.Some? {
        store := store[name := newValue.value];
      }
    }

    /** `set(_:forKey:)`: stores a variable unless the key is taken. */
    method Set(value: Option<AnyValue>, key: string)
      modifies this
      ensures store == InsertIfAbsent(old(store), key, Variable(key, value))
    {
      if key in store {
        return;
      }
      var variable := Variable(key, value);
      store := store[key := variable];
    }

    /** `removeValue(forKey:)`: removes and returns the entry under `key`;
      * nil, with nothing changed, when there is none. */
    method RemoveValue(key: string) returns (removed: Option<Entry>)
      modifies this
      ensures removed.Some? <==> key in old(store)
      ensures removed.Some? ==> removed.value == old(store)[key]
      ensures store == old(store) - {key}
      ensures removed.None? ==> store == old(store)
    {
      var current := Lookup(key);
      if current.None? {
        return None;
      }
      removed := Some(store[key]);
      store := store - {key};
    }

    /** `registerFunction(withName:target:_:)`: stores a function unless the
      * name is taken. */
    method RegisterFunction(name: string, target: Option<ObjectId>, body: FunctionId)
      modifies this
      ensures store == InsertIfAbsent(old(store), name, DynamicFunction(name, body, target))
    {
      if name in store {
        return;
      }
      var dynamicFunction := DynamicFunction(name, body, target);
      store := store[name := dynamicFunction];
    }

    /** `deregisterFunction(ofName:)`: removes the key, whatever it holds. */
    method DeregisterFunction(name: string)
      modifies this
      ensures store == old(store) - {name}
      ensures name !in old(store) ==> store == old(store)
    {
      store := store - {name};
    }

    /** `deregisterAll(forTarget:)`: walks a copy of the store, in no
      * particular order, removing each function registered by `target`. */
    method DeregisterAll(target: Option<ObjectId>)
      modifies this
      ensures store == WithoutTarget(old(store), target)
    {
      var snapshot := store;
      var pending := snapshot.Keys;
      while pending != {}
        invariant pending <= snapshot.Keys
        invariant store == map k | k in snapshot && (k in pending || !RegisteredBy(snapshot[k], target)) :: snapshot[k]
        decreases pending
      {
        var key :| key in pending;
        var value := snapshot[key];
        if value.DynamicFunction? && value.target == target {
          store := store - {key};
        }
        pending := pending - {key};
      }
    }
  }
}
