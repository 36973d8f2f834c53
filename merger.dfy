/**
  The value merger (`merge_values`): two values that land on the same key
  are combined into one. The rules are tried in this order: two objects are
  merged key by key, two arrays are concatenated, an array and something
  else gets the other value pushed onto its end, and anything else becomes
  a fresh two-element array.
 */
module Merger {
  import opened Json

  /** What an operand contributes to an array result: its elements, or itself. */
  function Items(v: Value): seq<Value>
  {
    if v.Arr? then v.elems else [v]
  }

  /** The merge rules as a function; `v1` is the value already stored, `v2` the incoming one. */
  function Merge(v1: Value, v2: Value): (r: Value)
    ensures r.Obj? <==> v1.Obj? && v2.Obj?
    ensures r.Obj? ==> r.fields.Keys == v1.fields.Keys + v2.fields.Keys
    ensures r.Arr? ==> |r.elems| == |Items(v1)| + |Items(v2)|
    decreases v1
  {
    match (v1, v2)
    case (Obj(o1), Obj(o2)) =>
      Obj(map k | k in o1.Keys + o2.Keys ::
        if k in o1 && k in o2 then Merge(o1[k], o2[k])
        else if k in o1 then o1[k]
        else o2[k])
    case (Arr(a1), Arr(a2)) => Arr(a1 + a2)
    case (Arr(a1), _) => Arr(a1 + [v2])
    case (_, Arr(a2)) => Arr(a2 + [v1])
    case _ => Arr([v1, v2])
  }

  /**
    `merge_values` as the source runs it: the first object is updated in
    place, one key of the second object at a time, and a key already present
    is replaced by the recursive merge of the two entries.
   */
  method MergeValues(v1: Value, v2: Value) returns (r: Value)
    ensures r == Merge(v1, v2)
    decreases v1
  {
    if v1.Obj? && v2.Obj? {
      var o1 := v1.fields;
      var o2 := v2.fields;
      var pending := o2.Keys;
      while pending != {}
        invariant pending <= o2.Keys
        invariant o1.Keys == v1.fields.Keys + (o2.Keys - pending)
        invariant forall k | k in o1 ::
          o1[k] == (if k !in o2 || k in pending then v1.fields[k]
                    else Merge(v1, v2).fields[k])
        decreases pending
      {
        var key2 :| key2 in pending;
        var replacement;
        if key2 in o1 {
          replacement := MergeValues(o1[key2], o2[key2]);
        } else {
          replacement := o2[key2];
        }
        o1 := o1[key2 := replacement];
        pending := pending - {key2};
      }
      return Obj(o1);
    }
    if v1.Arr? && v2.Arr? {
      return Arr(v1.elems + v2.elems);
    }
    if v1.Arr? {
      return Arr(v1.elems + [v2]);
    }
    if v2.Arr? {
      return Arr(v2.elems + [v1]);
    }
    return Arr([v1, v2]);
  }

  /**
    Two objects: the keys are the union of both key sets; a key of only one
    side keeps that side's value, and a shared key holds the merge of the
    two entries.
   */
  lemma MergeObjects(o1: map<string, Value>, o2: map<string, Value>)
    ensures Merge(Obj(o1), Obj(o2)).Obj?
    ensures var m := Merge(Obj(o1), Obj(o2)).fields;
      && m.Keys == o1.Keys + o2.Keys
      && (forall k | k in o1 && k !in o2 :: m[k] == o1[k])
      && (forall k | k in o2 && k !in o1 :: m[k] == o2[k])
      && (forall k | k in o1 && k in o2 :: m[k] == Merge(o1[k], o2[k]))
  {
  }

  /** Two arrays: the second is appended to the first, order kept. */
  lemma MergeArrays(a1: seq<Value>, a2: seq<Value>)
    ensures Merge(Arr(a1), Arr(a2)) == Arr(a1 + a2)
    ensures |Merge(Arr(a1), Arr(a2)).elems| == |a1| + |a2|
  {
  }

  /**
    Exactly one array: the other operand goes last, whichever position the
    array held; otherwise (no array, not two objects) a new pair `[v1, v2]`.
   */
  lemma MergeMixed(v1: Value, v2: Value)
    requires !(v1.Obj? && v2.Obj?) && !(v1.Arr? && v2.Arr?)
    ensures v1.Arr? ==> Merge(v1, v2) == Arr(v1.elems + [v2])
    ensures v2.Arr? ==> Merge(v1, v2) == Arr(v2.elems + [v1])
    ensures !v1.Arr? && !v2.Arr? ==> Merge(v1, v2) == Arr([v1, v2])
  {
  }

  /**
    The result is an array unless both operands are objects, and never a
    string: every value reaches one of the four rules, so the two
    "impossible" branches of the source are indeed never taken.
   */
  lemma MergeShape(v1: Value, v2: Value)
    ensures v1.Obj? && v2.Obj? ==> Merge(v1, v2).Obj?
    ensures !(v1.Obj? && v2.Obj?) ==> Merge(v1, v2).Arr?
    ensures !Merge(v1, v2).Str?
  {
  }

  /** Merging in an empty object changes nothing, from either side. */
  lemma MergeEmptyObject(m: map<string, Value>)
    ensures Merge(Obj(m), Obj(map[])) == Obj(m)
    ensures Merge(Obj(map[]), Obj(m)) == Obj(m)
  {
    assert Merge(Obj(m), Obj(map[])).fields == m;
    assert Merge(Obj(map[]), Obj(m)).fields == m;
  }

  /** The leaves of a concatenation are those of both parts. */
  lemma LeavesConcat(a: seq<Value>, b: seq<Value>)
    ensures Leaves(Arr(a + b)) == Leaves(Arr(a)) + Leaves(Arr(b))
  {
    var c := a + b;
    forall x | x in Leaves(Arr(c)) ensures x in Leaves(Arr(a)) + Leaves(Arr(b)) {
      var i :| 0 <= i < |c| && x in Leaves(c[i]);
      if i < |a| {
        assert c[i] == a[i];
      } else {
        assert c[i] == b[i - |a|];
      }
    }
    forall x | x in Leaves(Arr(a)) + Leaves(Arr(b)) ensures x in Leaves(Arr(c)) {
      if x in Leaves(Arr(a)) {
        var i :| 0 <= i < |a| && x in Leaves(a[i]);
        assert c[i] == a[i];
      } else {
        var i :| 0 <= i < |b| && x in Leaves(b[i]);
        assert c[|a| + i] == b[i];
      }
    }
  }

  /** A one-element array has the leaves of its element. */
  lemma LeavesSingleton(v: Value)
    ensures Leaves(Arr([v])) == Leaves(v)
  {
    assert [v][0] == v;
  }

  /**
    Merging never loses or invents cell data: the strings stored in the
    result are exactly those stored in the two operands.
   */
  lemma {:induction false} MergeLeaves(v1: Value, v2: Value)
    ensures Leaves(Merge(v1, v2)) == Leaves(v1) + Leaves(v2)
    decreases v1
  {
    match (v1, v2)
    case (Obj(o1), Obj(o2)) =>
      var m := Merge(v1, v2).fields;
      forall k | k in o1 && k in o2 {
        MergeLeaves(o1[k], o2[k]);
      }
      forall x | x in Leaves(Obj(m)) ensures x in Leaves(v1) + Leaves(v2) {
        var k :| k in m && x in Leaves(m[k]);
      }
      forall x | x in Leaves(v1) + Leaves(v2) ensures x in Leaves(Obj(m)) {
        if x in Leaves(v1) {
          var k :| k in o1 && x in Leaves(o1[k]);
          assert x in Leaves(m[k]);
        } else {
          var k :| k in o2 && x in Leaves(o2[k]);
          assert x in Leaves(m[k]);
        }
      }
    case (Arr(a1), Arr(a2)) =>
      LeavesConcat(a1, a2);
    case (Arr(a1), _) =>
      LeavesConcat(a1, [v2]);
      LeavesSingleton(v2);
    case (_, Arr(a2)) =>
      LeavesConcat(a2, [v1]);
      LeavesSingleton(v1);
    case _ =>
      LeavesConcat([v1], [v2]);
      LeavesSingleton(v1);
      LeavesSingleton(v2);
      assert [v1] + [v2] == [v1, v2];
  }
}
