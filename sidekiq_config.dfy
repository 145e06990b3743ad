/**
 The process-wide configuration of the Sidekiq broadcaster: the allow-list of
 types that may be rebuilt when a job's YAML payload is loaded, and the switch
 that turns the allow-list off (`use_unsafe_yaml!`).

 In Ruby both live as instance variables of the `Config` class object; here
 they are the fields of one `Config` object, created once per process.
 */
module SidekiqConfig {
  import opened RubyArray

  /** The answer of `register_safe_types`, which is what `uniq!` answers:
      `None` models Ruby's `nil` (nothing was removed), `Some(a)` the array. */
  datatype Option<T> = None | Some(value: T)

  /** `DEFAULT_SAFE_TYPES`: the frozen array `[Class, Symbol, Time]`. Being a
      constant value, no operation below can alter it. */
  const DefaultSafeTypes: seq<Value> := [Obj(Class), Obj(Symbol), Obj(Time)]

  /** The allow-list a registration of `types` leaves behind, starting from the
      allow-list `current`: `(current + types).flatten.uniq`. */
  function Registered(current: seq<Value>, types: seq<Value>): (r: seq<Value>)
    ensures Flat(r) && NoDups(r)
  {
    Uniq(Flatten(current + types))
  }

  /** Registration never drops anything and adds nothing else: a type is on the
      new allow-list exactly when it was on the old one or occurs, at any
      depth, among the registered arguments. */
  lemma RegisteredMembers(current: seq<Value>, types: seq<Value>, t: RubyType)
    requires Flat(current)
    ensures Obj(t) in Registered(current, types) <==> Obj(t) in current || Mentions(types, t)
  {
    FlattenAppend(current, types);
    FlattenOfFlat(current);
    FlattenMentions(types, t);
  }

  /** Registration keeps the order: the old allow-list stays in front, as it
      was, and the newly registered types follow in argument order, each at its
      first occurrence and only if it was not already allowed. */
  lemma RegisteredKeepsOrder(current: seq<Value>, types: seq<Value>)
    requires Flat(current) && NoDups(current)
    ensures Registered(current, types) == current + Uniq(Without(Flatten(types), current))
  {
    FlattenAppend(current, types);
    FlattenOfFlat(current);
    UniqAppend(current, Flatten(types));
    UniqOfNoDups(current);
  }

  /** Registering nothing new, in particular registering no types at all,
      leaves the allow-list unchanged as a sequence. */
  lemma RegisteredNothingNew(current: seq<Value>, types: seq<Value>)
    requires Flat(current) && NoDups(current)
    requires forall t :: Mentions(types, t) ==> Obj(t) in current
    ensures Registered(current, types) == current
  {
    RegisteredKeepsOrder(current, types);
    forall v | v in Flatten(types) ensures v in current {
      // every element of a flattened array is a single type
      var k :| 0 <= k < |Flatten(types)| && Flatten(types)[k] == v;
      FlattenMentions(types, v.t);
    }
  }

  /** Registering `a` and then `b` is registering `a + b` in one call. */
  lemma RegisteredSequentially(current: seq<Value>, a: seq<Value>, b: seq<Value>)
    ensures Registered(Registered(current, a), b) == Registered(current, a + b)
  {
    var first := Flatten(current + a);
    calc {
      Registered(Registered(current, a), b);
      Uniq(Flatten(Uniq(first) + b));
      { FlattenAppend(Uniq(first), b); FlattenOfFlat(Uniq(first)); }
      Uniq(Uniq(first) + Flatten(b));
      { UniqOfUniqAppend(first, Flatten(b)); }
      Uniq(first + Flatten(b));
      { FlattenAppend(current + a, b); }
      Uniq(Flatten(current + a + b));
      { assert current + a + b == current + (a + b); }
      Registered(current, a + b);
    }
  }

  /** Registering the same types twice is registering them once. */
  lemma RegisteredTwice(current: seq<Value>, types: seq<Value>)
    ensures Registered(Registered(current, types), types) == Registered(current, types)
  {
    var once := Registered(current, types);
    forall t | Mentions(types, t) ensures Obj(t) in once {
      FlattenAppend(current, types);
      FlattenMentions(types, t);
    }
    RegisteredNothingNew(once, types);
  }

  /** The class-level state of `Wisper::Sidekiq::Config`. */
  class Config {
    /** `@safe_types` has been assigned (it is `nil` until then). */
    var initialised: bool
    /** `@safe_types` is the frozen `DEFAULT_SAFE_TYPES` array itself. */
    var sharesDefault: bool
    /** The elements of `@safe_types` (empty while it is `nil`). */
    var safeTypes: seq<Value>
    /** `@use_unsafe_yaml`; `false` stands for its initial `nil`. */
    var unsafeYaml: bool

    /** Between calls the allow-list is a duplicate-free array of single types,
        and it is the frozen default until the first registration. */
    ghost predicate Valid()
      reads this
    {
      (!initialised ==> safeTypes == [] && !sharesDefault) &&
      (sharesDefault ==> initialised && safeTypes == DefaultSafeTypes) &&
      Flat(safeTypes) && NoDups(safeTypes)
    }

    /** The array `safe_types` answers in the current state. */
    function Current(): seq<Value>
      reads this
    {
      if initialised then safeTypes else DefaultSafeTypes
    }

    /** No type has been registered yet. */
    predicate Pristine()
      reads this
    {
      !initialised || sharesDefault
    }

    /** The state at process start: both instance variables are `nil`. */
    constructor ()
      ensures Valid() && Pristine()
      ensures Current() == [Obj(Class), Obj(Symbol), Obj(Time)]
      ensures !unsafeYaml
    {
      initialised, sharesDefault, safeTypes := false, false, [];
      unsafeYaml := false;
    }

    /** `use_unsafe_yaml!`: turns the switch on for good; the allow-list is
        left as it is. */
    method UseUnsafeYaml()
      requires Valid()
      modifies this`unsafeYaml
      ensures Valid() && unsafeYaml
      ensures Current() == old(Current()) && Pristine() == old(Pristine())
    {
      unsafeYaml := true;
    }

    /** `safe_types`: answers the allow-list, first assigning the frozen
        default to `@safe_types` if it is still `nil`. Before any registration
        the answer is `[Class, Symbol, Time]`. */
    method SafeTypes() returns (r: seq<Value>)
      requires Valid()
      modifies this`initialised, this`sharesDefault, this`safeTypes
      ensures Valid() && initialised
      ensures r == old(Current()) && Current() == old(Current())
      ensures old(Pristine()) ==> sharesDefault && r == [Obj(Class), Obj(Symbol), Obj(Time)]
      ensures Pristine() == old(Pristine())
      ensures unsafeYaml == old(unsafeYaml)
    {
      if !initialised {
        initialised, sharesDefault, safeTypes := true, true, DefaultSafeTypes;
      }
      r := safeTypes;
    }

    /** `register_safe_types(*types)`: `@safe_types ||= DEFAULT_SAFE_TYPES`,
        then `@safe_types += types` (a new, unfrozen array), then `flatten!`
        and `uniq!` on that array. Answers what `uniq!` answers: the array
        when it removed a duplicate, `nil` otherwise. */
    method RegisterSafeTypes(types: seq<Value>) returns (result: Option<seq<Value>>)
      requires Valid()
      modifies this`initialised, this`sharesDefault, this`safeTypes
      ensures Valid() && initialised && !Pristine()
      ensures Current() == Registered(old(Current()), types)
      ensures result == if NoDups(Flatten(old(Current()) + types)) then None else Some(Current())
      ensures unsafeYaml == old(unsafeYaml)
    {
      if !initialised {
        initialised, sharesDefault, safeTypes := true, true, DefaultSafeTypes;
      }
      safeTypes, sharesDefault := safeTypes + types, false;
      FlattenInPlace();
      result := UniqInPlace();
      assert safeTypes == Registered(old(Current()), types);
    }

    /** `Array#flatten!` on `@safe_types`; Ruby raises `FrozenError` on the
        frozen default, so the receiver must be a private copy. */
    method FlattenInPlace()
      requires initialised && !sharesDefault
      modifies this`safeTypes
      ensures safeTypes == Flatten(old(safeTypes))
    {
      safeTypes := Flatten(safeTypes);
    }

    /** `Array#uniq!` on `@safe_types`: answers `nil` when nothing was removed,
        else the receiver. The receiver must not be the frozen default. */
    method UniqInPlace() returns (result: Option<seq<Value>>)
      requires initialised && !sharesDefault
      modifies this`safeTypes
      ensures safeTypes == Uniq(old(safeTypes))
      ensures result == if NoDups(old(safeTypes)) then None else Some(safeTypes)
    {
      var before := safeTypes;
      safeTypes := Uniq(safeTypes);
      if |safeTypes| == |before| {
        result := None;
        assert NoDups(before) by {
          UniqShrinks(before);
        }
      } else {
        result := Some(safeTypes);
        if NoDups(before) {
          UniqOfNoDups(before);
        }
      }
    }
  }
}
