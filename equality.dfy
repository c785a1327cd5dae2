/** The equality oracle: the structural comparisons that decide whether a
    (re)registered configuration is new. */
module Equality {
  import opened Types

  /** The per-key test of `dynamicArgsEqual`: `vb` is `b[key]`, `None` when the
      key is missing from `b`. Literals compare with `===`; two `{ $state }`
      objects compare by their referenced path; any other pairing, including a
      literal against a reference, is unequal. */
  predicate ArgValueEqual(va: DynamicValue, vb: Option<DynamicValue>) {
    match (va, vb)
    case (Lit(x), Some(Lit(y))) => x == y
    case (StateRef(p), Some(StateRef(q))) => p == q
    case _ => false
  }

  /** `dynamicArgsEqual`. `None` is an absent (`undefined`) argument record.
      The leading `a === b` test is taken on values: two records that are the
      same object are equal values, and two equal values that are different
      objects pass the key-by-key comparison anyway (EqualArgsPassKeyByKey). */
  predicate ArgsEqual(a: Option<Args>, b: Option<Args>) {
    if a == b then true
    else if a.None? || b.None? then false
    else
      var ma, mb := a.value, b.value;
      |ma.Keys| == |mb.Keys| &&
      forall key :: key in ma ==> ArgValueEqual(ma[key], if key in mb then Some(mb[key]) else None)
  }

  /** One iteration of the checks loop of `validationConfigEqual`. */
  predicate CheckEqual(ca: Check, cb: Check) {
    ca.kind == cb.kind && ca.message == cb.message && ArgsEqual(ca.args, cb.args)
  }

  /** The checks loop: equal lengths and pairwise agreement in order. */
  predicate ChecksEqual(ac: seq<Check>, bc: seq<Check>) {
    |ac| == |bc| && forall i :: 0 <= i < |ac| ==> CheckEqual(ac[i], bc[i])
  }

  /** `validationConfigEqual`: same trigger, and the check lists (an absent one
      read as empty) agree pairwise. */
  predicate ConfigEqual(a: ValidationConfig, b: ValidationConfig) {
    if a == b then true
    else if a.validateOn != b.validateOn then false
    else ChecksEqual(a.ChecksOrEmpty(), b.ChecksOrEmpty())
  }

  /** Two key sets of equal size, one inside the other, are the same set. */
  lemma {:induction false} SubsetOfSameSize<K>(s: set<K>, t: set<K>)
    requires s <= t && |s| == |t|
    ensures s == t
  {
    if s != t {
      assert t - s != {} by {
        if t - s == {} {
          forall x | x in t ensures x in s { assert x !in t - s; }
        }
      }
      var x :| x in t - s;
      assert s <= t - {x};
      assert |t - {x}| == |t| - 1;
      SubsetCardinality(s, t - {x});
      assert false;
    }
  }

  lemma {:induction false} SubsetCardinality<K>(s: set<K>, t: set<K>)
    requires s <= t
    ensures |s| <= |t|
    decreases t
  {
    if s != {} {
      var x :| x in s;
      SubsetCardinality(s - {x}, t - {x});
    }
  }

  /** The per-key test holds exactly when `b` holds the same value at the key. */
  lemma ArgValueEqualIsEquality(va: DynamicValue, vb: Option<DynamicValue>)
    ensures ArgValueEqual(va, vb) <==> vb == Some(va)
  {
  }

  /** `dynamicArgsEqual` is exactly structural equality of argument records:
      two absent records are equal, an absent record never equals a present
      one (not even an empty one), and two present records are equal iff they
      have the same keys with the same values, so a literal never equals a
      `{ $state }` reference. */
  lemma {:induction false} ArgsEqualIsEquality(a: Option<Args>, b: Option<Args>)
    ensures ArgsEqual(a, b) <==> a == b
  {
    if a.Some? && b.Some? && ArgsEqual(a, b) {
      var ma, mb := a.value, b.value;
      forall key | key in ma
        ensures key in mb && mb[key] == ma[key]
      {
        ArgValueEqualIsEquality(ma[key], if key in mb then Some(mb[key]) else None);
      }
      SubsetOfSameSize(ma.Keys, mb.Keys);
      assert ma == mb;
    }
  }

  /** The key-by-key branch of `dynamicArgsEqual`, taken on its own, accepts
      two copies of the same record: so deciding `a === b` on values rather
      than on object identity changes no answer. */
  lemma EqualArgsPassKeyByKey(m: Args)
    ensures forall key :: key in m ==> ArgValueEqual(m[key], if key in m then Some(m[key]) else None)
  {
    forall key | key in m
      ensures ArgValueEqual(m[key], Some(m[key]))
    {
      ArgValueEqualIsEquality(m[key], Some(m[key]));
    }
  }

  /** An absent argument record differs from an empty one. */
  lemma AbsentArgsDifferFromEmpty()
    ensures !ArgsEqual(None, Some(map[]))
    ensures !ArgsEqual(Some(map[]), None)
  {
  }

  lemma CheckEqualIsEquality(ca: Check, cb: Check)
    ensures CheckEqual(ca, cb) <==> ca == cb
  {
    ArgsEqualIsEquality(ca.args, cb.args);
  }

  /** The checks loop agrees exactly when the two lists are equal. */
  lemma {:induction false} ChecksEqualIsEquality(ac: seq<Check>, bc: seq<Check>)
    ensures ChecksEqual(ac, bc) <==> ac == bc
  {
    if |ac| == |bc| {
      forall i | 0 <= i < |ac|
        ensures CheckEqual(ac[i], bc[i]) <==> ac[i] == bc[i]
      {
        CheckEqualIsEquality(ac[i], bc[i]);
      }
    }
  }

  /** `validationConfigEqual` holds exactly when the triggers match and the
      check lists are equal once an absent list is read as empty: so two
      configurations differing in any check's kind, message or arguments are
      unequal. */
  lemma ConfigEqualIff(a: ValidationConfig, b: ValidationConfig)
    ensures ConfigEqual(a, b) <==> a.validateOn == b.validateOn && a.ChecksOrEmpty() == b.ChecksOrEmpty()
  {
    ChecksEqualIsEquality(a.ChecksOrEmpty(), b.ChecksOrEmpty());
  }

  /** An absent checks list and an empty one are interchangeable. */
  lemma AbsentChecksEqualEmpty(t: Option<Trigger>)
    ensures ConfigEqual(ValidationConfig(t, None), ValidationConfig(t, Some([])))
  {
    ConfigEqualIff(ValidationConfig(t, None), ValidationConfig(t, Some([])));
  }

  /** `validationConfigEqual` is an equivalence relation. */
  lemma ConfigEqualReflexive(a: ValidationConfig)
    ensures ConfigEqual(a, a)
  {
  }

  lemma ConfigEqualSymmetric(a: ValidationConfig, b: ValidationConfig)
    ensures ConfigEqual(a, b) ==> ConfigEqual(b, a)
  {
    ConfigEqualIff(a, b);
    ConfigEqualIff(b, a);
  }

  lemma ConfigEqualTransitive(a: ValidationConfig, b: ValidationConfig, c: ValidationConfig)
    ensures ConfigEqual(a, b) && ConfigEqual(b, c) ==> ConfigEqual(a, c)
  {
    ConfigEqualIff(a, b);
    ConfigEqualIff(b, c);
    ConfigEqualIff(a, c);
  }
}
