/**
 The Ruby values that reach the safe-type registry, and the two Ruby Array
 operations it relies on: `flatten` (splice nested arrays into their parent,
 recursively) and `uniq` (drop every element equal to an earlier one, keeping
 the first occurrence).
 */
module RubyArray {

  /** A Ruby object registered as a safe type. `Class`, `Symbol` and `Time` are
      the three built-in classes of the default allow-list; any other object
      (a user class or a subscribed listener) is identified by its name. */
  datatype RubyType = Class | Symbol | Time | Named(name: string)

  /** An element of a Ruby array: a single object, or a nested array. */
  datatype Value = Obj(t: RubyType) | Array(items: seq<Value>)

  /** No element of `s` is a nested array. */
  predicate Flat(s: seq<Value>)
  {
    forall v :: v in s ==> v.Obj?
  }

  /** No two positions of `s` hold equal elements. */
  predicate NoDups<T(==,!new)>(s: seq<T>)
  {
    forall i, j :: 0 <= i < j < |s| ==> s[i] != s[j]
  }

  /** `t` occurs in `s`, at the top level or inside a nested array at any depth. */
  predicate Mentions(s: seq<Value>, t: RubyType)
    decreases s
  {
    exists i :: 0 <= i < |s| && MentionedBy(s[i], t)
  }

  predicate MentionedBy(v: Value, t: RubyType)
    decreases v
  {
    match v
    case Obj(u) => u == t
    case Array(xs) => Mentions(xs, t)
  }

  /** Ruby's `Array#flatten` with no depth argument. */
  function Flatten(s: seq<Value>): (r: seq<Value>)
    ensures Flat(r)
    decreases s
  {
    if s == [] then []
    else
      var head := match s[0]
        case Obj(_) => [s[0]]
        case Array(xs) => Flatten(xs);
      head + Flatten(s[1..])
  }

  /** Ruby's `Array#uniq`: `s` with every element equal to an earlier one removed. */
  function Uniq<T(==,!new)>(s: seq<T>): (r: seq<T>)
    ensures NoDups(r)
    ensures forall x :: x in r <==> x in s
    decreases |s|
  {
    if s == [] then []
    else
      var u := Uniq(s[..|s| - 1]);
      if s[|s| - 1] in u then u else u + [s[|s| - 1]]
  }

  /** The elements of `s` that do not occur in `drop`, in their order in `s`. */
  function Without<T(==,!new)>(s: seq<T>, drop: seq<T>): (r: seq<T>)
    ensures forall x :: x in r <==> x in s && x !in drop
    decreases |s|
  {
    if s == [] then []
    else
      var w := Without(s[..|s| - 1], drop);
      if s[|s| - 1] in drop then w else w + [s[|s| - 1]]
  }

  /** The position of the first occurrence of `x` in `s`. */
  function FirstIndex<T(==,!new)>(s: seq<T>, x: T): (k: nat)
    requires x in s
    ensures k < |s| && s[k] == x
    ensures forall j :: 0 <= j < k ==> s[j] != x
  {
    if s[0] == x then 0 else 1 + FirstIndex(s[1..], x)
  }

  // ---------------------------------------------------------------------------
  // flatten

  /** Flattening splices the flattened halves of a concatenation. */
  lemma {:induction false} FlattenAppend(a: seq<Value>, b: seq<Value>)
    ensures Flatten(a + b) == Flatten(a) + Flatten(b)
    decreases |a|
  {
    if a == [] {
      assert a + b == b;
    } else {
      assert (a + b)[0] == a[0];
      assert (a + b)[1..] == a[1..] + b;
      FlattenAppend(a[1..], b);
    }
  }

  /** An array that holds no nested array is left as it is. */
  lemma {:induction false} FlattenOfFlat(s: seq<Value>)
    requires Flat(s)
    ensures Flatten(s) == s
    decreases |s|
  {
    if s != [] {
      FlattenOfFlat(s[1..]);
    }
  }

  /** Flattening twice is flattening once. */
  lemma FlattenIdempotent(s: seq<Value>)
    ensures Flatten(Flatten(s)) == Flatten(s)
  {
    FlattenOfFlat(Flatten(s));
  }

  /** Flattening loses no object and invents none: `Obj(t)` is in the result
      exactly when `t` occurs somewhere in `s`, at any depth. */
  lemma {:induction false} FlattenMentions(s: seq<Value>, t: RubyType)
    ensures Obj(t) in Flatten(s) <==> Mentions(s, t)
    decreases s
  {
    if s != [] {
      var head := match s[0]
        case Obj(_) => [s[0]]
        case Array(xs) => Flatten(xs);
      assert Flatten(s) == head + Flatten(s[1..]);
      FlattenMentions(s[1..], t);
      if s[0].Array? {
        FlattenMentions(s[0].items, t);
      }
      if Mentions(s, t) {
        var i :| 0 <= i < |s| && MentionedBy(s[i], t);
        if i > 0 {
          assert s[1..][i - 1] == s[i];
        }
      }
      if Mentions(s[1..], t) {
        var i :| 0 <= i < |s[1..]| && MentionedBy(s[1..][i], t);
        assert s[i + 1] == s[1..][i];
      }
      assert MentionedBy(s[0], t) ==> Mentions(s, t);
    }
  }

  // ---------------------------------------------------------------------------
  // uniq

  /** `Without` depends only on which elements `drop` holds. */
  lemma {:induction false} WithoutSameElements<T(!new)>(s: seq<T>, d1: seq<T>, d2: seq<T>)
    requires forall x :: x in d1 <==> x in d2
    ensures Without(s, d1) == Without(s, d2)
    decreases |s|
  {
    if s != [] {
      WithoutSameElements(s[..|s| - 1], d1, d2);
    }
  }

  /** An array without duplicates is left as it is. */
  lemma {:induction false} UniqOfNoDups<T(!new)>(s: seq<T>)
    requires NoDups(s)
    ensures Uniq(s) == s
    decreases |s|
  {
    if s != [] {
      var init := s[..|s| - 1];
      UniqOfNoDups(init);
      assert s[|s| - 1] !in init by {
        forall j | 0 <= j < |init| ensures init[j] != s[|s| - 1] {
          assert init[j] == s[j];
        }
      }
      assert s == init + [s[|s| - 1]];
    }
  }

  /** `Uniq` never lengthens an array, and it keeps the length exactly when
      there was no duplicate to remove. */
  lemma {:induction false} UniqShrinks<T(!new)>(s: seq<T>)
    ensures |Uniq(s)| <= |s|
    ensures |Uniq(s)| == |s| <==> NoDups(s)
    decreases |s|
  {
    if s != [] {
      var init, last := s[..|s| - 1], s[|s| - 1];
      UniqShrinks(init);
      assert s == init + [last];
      if last in init {
        var k :| 0 <= k < |init| && init[k] == last;
        assert s[k] == s[|s| - 1];
      } else {
        if NoDups(init) {
          forall i, j | 0 <= i < j < |s| ensures s[i] != s[j] {
            if j < |init| {
              assert s[i] == init[i] && s[j] == init[j];
            } else {
              assert s[i] == init[i];
            }
          }
        }
        if NoDups(s) {
          forall i, j | 0 <= i < j < |init| ensures init[i] != init[j] {
            assert s[i] == init[i] && s[j] == init[j];
          }
        }
      }
    }
  }

  /** Removing duplicates twice is removing them once. */
  lemma UniqIdempotent<T(!new)>(s: seq<T>)
    ensures Uniq(Uniq(s)) == Uniq(s)
  {
    UniqOfNoDups(Uniq(s));
  }

  /** `Uniq` keeps the first occurrence of every element: the survivors appear
      in the order in which they first occur in `s`. Together with the contract
      of `Uniq` this determines its result. */
  lemma {:induction false} UniqKeepsFirstOccurrence<T(!new)>(s: seq<T>, i: nat, j: nat)
    requires i < j < |Uniq(s)|
    ensures FirstIndex(s, Uniq(s)[i]) < FirstIndex(s, Uniq(s)[j])
    decreases |s|
  {
    var init, last := s[..|s| - 1], s[|s| - 1];
    var u := Uniq(init);
    assert s == init + [last];
    var r := Uniq(s);
    FirstIndexExtend(init, last, r[i]);
    if j < |u| {
      assert r[j] == u[j];
      FirstIndexExtend(init, last, r[j]);
      UniqKeepsFirstOccurrence(init, i, j);
    } else {
      assert r[j] == last && last !in init;
      assert FirstIndex(s, last) == |init| by {
        FirstIndexAt(s, |init|);
      }
    }
  }

  /** The first index of `x` in `s` does not move when `s` grows at the end. */
  lemma {:induction false} FirstIndexExtend<T(!new)>(s: seq<T>, y: T, x: T)
    requires x in s
    ensures FirstIndex(s + [y], x) == FirstIndex(s, x)
  {
    var k := FirstIndex(s, x);
    assert (s + [y])[k] == x;
    FirstIndexAt(s + [y], k);
  }

  /** The first index is the only position holding `s[k]` with no earlier copy. */
  lemma {:induction false} FirstIndexAt<T(!new)>(s: seq<T>, k: nat)
    requires k < |s|
    requires forall j :: 0 <= j < k ==> s[j] != s[k]
    ensures FirstIndex(s, s[k]) == k
    decreases k
  {
    if k > 0 {
      assert s[0] != s[k];
      assert s[1..][k - 1] == s[k];
      FirstIndexAt(s[1..], k - 1);
    }
  }

  /** Removing duplicates from a concatenation keeps the deduplicated front and
      then the back's elements that are new, in their first-occurrence order. */
  lemma {:induction false} UniqAppend<T(!new)>(a: seq<T>, b: seq<T>)
    ensures Uniq(a + b) == Uniq(a) + Uniq(Without(b, a))
    decreases |b|
  {
    if b == [] {
      assert a + b == a;
    } else {
      var init, last := b[..|b| - 1], b[|b| - 1];
      var w := Without(init, a);
      var front := a + init;
      UniqAppend(a, init);
      assert Uniq(front) == Uniq(a) + Uniq(w);
      assert a + b == front + [last] by {
        assert b == init + [last];
      }
      UniqSnoc(front, last);
      WithoutSnoc(init, last, a);
      assert Without(b, a) == Without(init + [last], a) by {
        assert b == init + [last];
      }
      if last in a {
        assert last in front;
      } else {
        assert last in Uniq(front) <==> last in Uniq(w) by {
          assert last in front <==> last in init;
        }
        UniqSnoc(w, last);
        AppendAssoc(Uniq(a), Uniq(w), [last]);
      }
    }
  }

  /** Proof helper for `UniqAppend`: concatenation is associative. Stated
      apart so that the step is checked without the `Uniq` facts in scope. */
  lemma AppendAssoc<T>(p: seq<T>, q: seq<T>, r: seq<T>)
    ensures p + q + r == p + (q + r)
  {
  }

  /** One step of `Uniq`: an element appended at the end survives iff it is new. */
  lemma UniqSnoc<T(!new)>(s: seq<T>, x: T)
    ensures Uniq(s + [x]) == if x in Uniq(s) then Uniq(s) else Uniq(s) + [x]
  {
    assert (s + [x])[..|s|] == s;
  }

  /** One step of `Without`: an element appended at the end survives iff it is
      not dropped. */
  lemma WithoutSnoc<T(!new)>(s: seq<T>, x: T, drop: seq<T>)
    ensures Without(s + [x], drop) == if x in drop then Without(s, drop) else Without(s, drop) + [x]
  {
    assert (s + [x])[..|s|] == s;
  }

  /** Deduplicating a prefix first does not change the final deduplication. */
  lemma UniqOfUniqAppend<T(!new)>(a: seq<T>, b: seq<T>)
    ensures Uniq(Uniq(a) + b) == Uniq(a + b)
  {
    UniqAppend(Uniq(a), b);
    UniqAppend(a, b);
    UniqIdempotent(a);
    WithoutSameElements(b, Uniq(a), a);
  }
}
