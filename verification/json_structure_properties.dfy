/**
  Properties of JSON structure inference: the widening order on type names,
  how merging treats NULLs, kind mismatches, arrays and objects, why the
  internal "unexpected type" error cannot be reached from a built
  structure, and that merging is idempotent.
*/
module JsonStructureProperties {
  import opened Outcomes
  import opened JsonStructure

  // ---------------------------------------------------------------------------
  // The widening order on type names
  // ---------------------------------------------------------------------------

  /** An absent side yields the other side, and equal inputs yield that input. */
  lemma {:induction false} MaxTypeStringIdentity(a: Option<string>, b: Option<string>)
    ensures MaxTypeString(None, b) == b && MaxTypeString(a, None) == a
    ensures MaxTypeString(a, a) == a
  {
  }

  /** On the five widening names the result is the one ranked higher. */
  lemma {:induction false} MaxTypeStringIsMax(a: string, b: string)
    requires IsWideningName(a) && IsWideningName(b)
    ensures MaxTypeString(Some(a), Some(b)) == Some(if Rank(a) >= Rank(b) then a else b)
  {
  }

  /** The order of the two inputs does not matter. */
  lemma {:induction false} MaxTypeStringCommutes(a: Option<string>, b: Option<string>)
    ensures MaxTypeString(a, b) == MaxTypeString(b, a)
  {
  }

  /** Widening a running name entry by entry gives the same result however the entries are grouped. */
  lemma {:induction false} MaxTypeStringAssociates(a: Option<string>, b: Option<string>, c: Option<string>)
    ensures MaxTypeString(MaxTypeString(a, b), c) == MaxTypeString(a, MaxTypeString(b, c))
  {
    if a.Some? && b.Some? && c.Some? {
      if TypeStringVarchar in {a.value, b.value, c.value} {
      } else if TypeStringDouble in {a.value, b.value, c.value} {
      } else if TypeStringBigint in {a.value, b.value, c.value} {
      } else if TypeStringUBigint in {a.value, b.value, c.value} {
      }
    }
  }

  /**
    Widening never invents a name for names inside the order, but two
    different names outside it widen to BOOLEAN.
  */
  lemma {:induction false} MaxTypeStringChoosesInput(a: string, b: string)
    ensures (IsWideningName(a) && IsWideningName(b)) ==> MaxTypeString(Some(a), Some(b)) in {Some(a), Some(b)}
    ensures (a != b && !IsWideningName(a) && !IsWideningName(b)) ==> MaxTypeString(Some(a), Some(b)) == Some(TypeStringBoolean)
  {
  }

  /** A merge never produces the NULL name from two names that are not NULL. */
  lemma {:induction false} MaxTypeStringNotNull(a: Option<string>, b: Option<string>)
    requires a != Some(TypeStringNull) && b != Some(TypeStringNull)
    ensures MaxTypeString(a, b) != Some(TypeStringNull)
  {
  }

  // ---------------------------------------------------------------------------
  // NULL entries
  // ---------------------------------------------------------------------------

  /** The entries of a list that are not NULL placeholders, in order. */
  function NonNull(l: seq<Shape>): seq<Shape> {
    if |l| == 0 then []
    else (if IsNull(l[0]) then [] else [l[0]]) + NonNull(l[1..])
  }

  /** The filter keeps exactly the non-NULL entries and never grows the list. */
  lemma {:induction false} NonNullElements(l: seq<Shape>)
    ensures forall v :: v in NonNull(l) <==> v in l && !IsNull(v)
    ensures |NonNull(l)| <= |l|
    decreases |l|
  {
    if |l| > 0 {
      NonNullElements(l[1..]);
      assert l == [l[0]] + l[1..];
    }
  }

  /** Two lists that give a merge the same nested elements, keys and values per key. */
  ghost predicate SameCollections(l1: seq<Shape>, l2: seq<Shape>) {
    && NestedElements(l1) == NestedElements(l2)
    && AllKeys(l1) == AllKeys(l2)
    && forall k :: ValuesOf(k, l1) == ValuesOf(k, l2)
  }

  /** String entries contribute nothing to the collections of a merge. */
  lemma {:induction false} StringHeadAddsNothing(l: seq<Shape>)
    requires |l| > 0 && l[0].Str?
    ensures SameCollections(l, l[1..])
  {
    assert NestedElements(l) == [] + NestedElements(l[1..]);
    assert AllKeys(l) == [] + AllKeys(l[1..]);
    forall k
      ensures ValuesOf(k, l) == ValuesOf(k, l[1..])
    {
      assert ValuesOf(k, l) == [] + ValuesOf(k, l[1..]);
    }
  }

  lemma {:induction false} SameHeadSameCollections(l1: seq<Shape>, l2: seq<Shape>)
    requires |l1| > 0 && |l2| > 0 && l1[0] == l2[0] && SameCollections(l1[1..], l2[1..])
    ensures SameCollections(l1, l2)
  {
  }

  lemma {:induction false} DroppingNullsKeepsCollections(l: seq<Shape>)
    ensures SameCollections(NonNull(l), l)
    decreases |l|
  {
    if |l| > 0 {
      DroppingNullsKeepsCollections(l[1..]);
      var n := NonNull(l);
      if IsNull(l[0]) {
        StringHeadAddsNothing(l);
        assert n == NonNull(l[1..]) by {
          assert n == [] + NonNull(l[1..]);
        }
      } else {
        assert n == [l[0]] + NonNull(l[1..]);
        assert n[0] == l[0] && n[1..] == NonNull(l[1..]);
        SameHeadSameCollections(n, l);
      }
    }
  }

  /** Member merging only looks at the values each key collects. */
  lemma {:induction false} MergeMembersCongruent(keys: seq<string>, l1: seq<Shape>, l2: seq<Shape>)
    requires |l1| > 0 && |l2| > 0
    requires forall k :: ValuesOf(k, l1) == ValuesOf(k, l2)
    ensures MergeMembers(keys, l1) == MergeMembers(keys, l2)
    decreases |keys|
  {
    if |keys| > 0 {
      MergeMembersCongruent(keys[1..], l1, l2);
    }
  }

  /** Two lists whose loops agree and whose collections agree merge alike. */
  lemma {:induction false} MergeCongruent(l1: seq<Shape>, l2: seq<Shape>)
    requires |l1| > 0 && |l2| > 0 && SameCollections(l1, l2)
    requires Scan(l1[1..], HeadOf(l1[0])) == Scan(l2[1..], HeadOf(l2[0]))
    ensures Merge(l1) == Merge(l2)
  {
    var sc := Scan(l1[1..], HeadOf(l1[0]));
    if sc.Success? && sc.value.kind == ObjKind {
      MergeMembersCongruent(Dedup(AllKeys(l1)), l1, l2);
    }
  }

  /** Once a non-NULL head is found, later NULL entries are skipped. */
  lemma {:induction false} ScanSkipsNulls(rest: seq<Shape>, h: Head)
    requires ConsistentHead(h) && !IsNullHead(h)
    ensures Scan(rest, h) == Scan(NonNull(rest), h)
    decreases |rest|
  {
    if |rest| > 0 {
      var e := rest[0];
      var n := NonNull(rest);
      if IsNull(e) {
        assert n == NonNull(rest[1..]) by {
          assert n == [] + NonNull(rest[1..]);
        }
        assert Scan(rest, h) == Scan(rest[1..], h);
        ScanSkipsNulls(rest[1..], h);
      } else {
        assert n == [e] + NonNull(rest[1..]);
        assert n[0] == e && n[1..] == NonNull(rest[1..]);
        if h.kind == KindOf(e) {
          MaxTypeStringNotNull(h.typeString, StrOf(e));
          ScanSkipsNulls(rest[1..], Head(h.kind, MaxTypeString(h.typeString, StrOf(e))));
        }
      }
    }
  }

  /** A leading NULL is replaced by whatever follows it. */
  lemma {:induction false} MergeSkipsLeadingNull(l: seq<Shape>)
    requires |l| > 0 && IsNull(l[0])
    ensures Merge(l) == Merge(l[1..])
  {
    if |l| > 1 {
      var t := l[1..];
      assert t[1..] == l[1..][1..];
      StringHeadAddsNothing(l);
      MergeCongruent(l, t);
    } else {
      assert Scan(l[1..], HeadOf(l[0])) == Success(HeadOf(l[0]));
    }
  }

  /** NULL entries never influence a merge: it equals the merge of the non-NULL entries. */
  lemma {:induction false} MergeIgnoresNulls(l: seq<Shape>)
    ensures Merge(l) == Merge(NonNull(l))
    decreases |l|
  {
    if |l| > 0 {
      if IsNull(l[0]) {
        var t := l[1..];
        MergeSkipsLeadingNull(l);
        MergeIgnoresNulls(t);
        assert NonNull(l) == NonNull(t) by {
          assert NonNull(l) == [] + NonNull(t);
        }
      } else {
        MergeNonNullHead(l);
      }
    }
  }

  lemma {:induction false} MergeNonNullHead(l: seq<Shape>)
    requires |l| > 0 && !IsNull(l[0])
    ensures Merge(l) == Merge(NonNull(l))
  {
    var n := NonNull(l);
    assert n == [l[0]] + NonNull(l[1..]);
    assert n[0] == l[0] && n[1..] == NonNull(l[1..]);
    ScanSkipsNulls(l[1..], HeadOf(l[0]));
    DroppingNullsKeepsCollections(l);
    MergeCongruent(n, l);
  }

  /** An empty or all-NULL list merges to the NULL name. */
  lemma {:induction false} MergeAllNull(l: seq<Shape>)
    requires forall i :: 0 <= i < |l| ==> IsNull(l[i])
    ensures Merge(l) == Success(Str(TypeStringNull))
  {
    MergeIgnoresNulls(l);
    NonNullOfAllNull(l);
  }

  lemma {:induction false} NonNullOfAllNull(l: seq<Shape>)
    requires forall i :: 0 <= i < |l| ==> IsNull(l[i])
    ensures NonNull(l) == []
    decreases |l|
  {
    if |l| > 0 {
      assert forall i :: 0 <= i < |l[1..]| ==> l[1..][i] == l[i + 1];
      NonNullOfAllNull(l[1..]);
    }
  }

  // ---------------------------------------------------------------------------
  // Kinds
  // ---------------------------------------------------------------------------

  /** Over non-NULL entries the loop keeps the head's kind and fails on any other kind. */
  lemma {:induction false} ScanNonNullKinds(rest: seq<Shape>, h: Head)
    requires ConsistentHead(h) && !IsNullHead(h)
    requires forall i :: 0 <= i < |rest| ==> !IsNull(rest[i])
    ensures Scan(rest, h).Success? <==> forall i :: 0 <= i < |rest| ==> KindOf(rest[i]) == h.kind
    ensures Scan(rest, h).Success? ==> Scan(rest, h).value.kind == h.kind
    decreases |rest|
  {
    if |rest| > 0 {
      var e := rest[0];
      if h.kind == KindOf(e) {
        var h' := Head(h.kind, MaxTypeString(h.typeString, StrOf(e)));
        MaxTypeStringNotNull(h.typeString, StrOf(e));
        ScanNonNullKinds(rest[1..], h');
        assert forall i :: 1 <= i < |rest| ==> rest[i] == rest[1..][i - 1];
      }
    }
  }

  /**
    Two non-NULL entries of different kinds (string, array, object) make the
    merge raise the inconsistency error.
  */
  lemma {:induction false} MergeKindMismatch(l: seq<Shape>, i: nat, j: nat)
    requires i < |l| && j < |l|
    requires !IsNull(l[i]) && !IsNull(l[j]) && KindOf(l[i]) != KindOf(l[j])
    ensures Merge(l) == Failure(InconsistentStructure)
  {
    MergeIgnoresNulls(l);
    NonNullEntries(l);
    var n := NonNull(l);
    var odd := if KindOf(l[i]) != KindOf(n[0]) then l[i] else l[j];
    assert odd in n && KindOf(odd) != KindOf(n[0]);
    MergeNonNullMismatch(n, FirstIndex(n, odd));
  }

  /** Over a list without NULLs, an entry whose kind differs from the first makes the merge fail. */
  lemma {:induction false} MergeNonNullMismatch(n: seq<Shape>, k: nat)
    requires 0 < k < |n| && forall i :: 0 <= i < |n| ==> !IsNull(n[i])
    requires KindOf(n[k]) != KindOf(n[0])
    ensures Merge(n) == Failure(InconsistentStructure)
  {
    var rest := n[1..];
    forall i | 0 <= i < |rest|
      ensures !IsNull(rest[i])
    {
      assert rest[i] == n[i + 1];
    }
    assert rest[k - 1] == n[k];
    ScanNonNullKinds(rest, HeadOf(n[0]));
  }

  /** Every entry of the filtered list is non-NULL, and every non-NULL entry survives. */
  lemma {:induction false} NonNullEntries(l: seq<Shape>)
    ensures forall k :: 0 <= k < |NonNull(l)| ==> !IsNull(NonNull(l)[k]) && NonNull(l)[k] in l
    ensures forall i :: 0 <= i < |l| && !IsNull(l[i]) ==> l[i] in NonNull(l)
  {
    var n := NonNull(l);
    NonNullElements(l);
    forall k | 0 <= k < |n|
      ensures !IsNull(n[k]) && n[k] in l
    {
      assert n[k] in n;
    }
  }

  lemma {:induction false} MergeAsKind(h: Head, l: seq<Shape>)
    requires |l| > 0 && ConsistentHead(h) && MergeAs(h, l).Success?
    ensures KindOf(MergeAs(h, l).value) == h.kind
  {
  }

  /** Over a list without NULLs a successful merge has the kind of every entry. */
  lemma {:induction false} MergeNonNullKind(n: seq<Shape>)
    requires |n| > 0 && forall k :: 0 <= k < |n| ==> !IsNull(n[k])
    requires Merge(n).Success?
    ensures forall k :: 0 <= k < |n| ==> KindOf(Merge(n).value) == KindOf(n[k])
  {
    var h := HeadOf(n[0]);
    assert forall k :: 0 <= k < |n[1..]| ==> n[1..][k] == n[k + 1];
    ScanNonNullKinds(n[1..], h);
    MergeAsKind(Scan(n[1..], h).value, n);
    forall k | 0 <= k < |n|
      ensures KindOf(Merge(n).value) == KindOf(n[k])
    {
      if k > 0 {
        assert n[k] == n[1..][k - 1];
      }
    }
  }

  /**
    A successful merge has the common kind of the non-NULL entries; with no
    non-NULL entry it is the NULL name.
  */
  lemma {:induction false} MergeKeepsKind(l: seq<Shape>)
    requires Merge(l).Success?
    ensures (forall i :: 0 <= i < |l| ==> IsNull(l[i])) ==> Merge(l).value == Str(TypeStringNull)
    ensures forall i :: 0 <= i < |l| && !IsNull(l[i]) ==> KindOf(Merge(l).value) == KindOf(l[i])
  {
    if forall i :: 0 <= i < |l| ==> IsNull(l[i]) {
      MergeAllNull(l);
    } else {
      MergeIgnoresNulls(l);
      NonNullEntries(l);
      var n := NonNull(l);
      var w :| 0 <= w < |l| && !IsNull(l[w]);
      assert l[w] in n;
      MergeNonNullKind(n);
      forall i | 0 <= i < |l| && !IsNull(l[i])
        ensures KindOf(Merge(l).value) == KindOf(l[i])
      {
        assert l[i] in n;
      }
    }
  }

  // ---------------------------------------------------------------------------
  // Scalar entries
  // ---------------------------------------------------------------------------

  lemma {:induction false} ScanWidens(rest: seq<Shape>, x: string)
    requires IsWideningName(x)
    requires forall i :: 0 <= i < |rest| ==> rest[i].Str? && IsWideningName(rest[i].s)
    ensures Scan(rest, Head(StrKind, Some(x))).Success?
    ensures var h := Scan(rest, Head(StrKind, Some(x))).value;
      && h.kind == StrKind && h.typeString.Some?
      && IsWideningName(h.typeString.value)
      && (h.typeString.value == x || exists i :: 0 <= i < |rest| && rest[i].s == h.typeString.value)
      && Rank(x) <= Rank(h.typeString.value)
      && forall i :: 0 <= i < |rest| ==> Rank(rest[i].s) <= Rank(h.typeString.value)
    decreases |rest|
  {
    if |rest| > 0 {
      var e := rest[0];
      MaxTypeStringIsMax(x, e.s);
      var y := if Rank(x) >= Rank(e.s) then x else e.s;
      ScanWidens(rest[1..], y);
      var z := Scan(rest, Head(StrKind, Some(x))).value.typeString.value;
      assert forall i :: 1 <= i < |rest| ==> rest[i] == rest[1..][i - 1];
      if z != y {
        var i :| 0 <= i < |rest[1..]| && rest[1..][i].s == z;
        assert rest[i + 1].s == z;
      }
    }
  }

  /** Over non-NULL scalar names the merge is the widest name present. */
  lemma {:induction false} MergeWidestName(n: seq<Shape>)
    requires |n| > 0 && forall k :: 0 <= k < |n| ==> n[k].Str? && IsWideningName(n[k].s)
    ensures Merge(n).Success? && Merge(n).value.Str? && IsWideningName(Merge(n).value.s)
    ensures exists k :: 0 <= k < |n| && n[k].s == Merge(n).value.s
    ensures forall k :: 0 <= k < |n| ==> Rank(n[k].s) <= Rank(Merge(n).value.s)
  {
    assert forall k :: 0 <= k < |n[1..]| ==> n[1..][k] == n[k + 1];
    ScanWidens(n[1..], n[0].s);
    var h := Scan(n[1..], HeadOf(n[0])).value;
    assert HeadOf(n[0]) == Head(StrKind, Some(n[0].s));
    assert Merge(n) == MergeAs(h, n) == Success(Str(h.typeString.value));
    var y := h.typeString.value;
    forall k | 0 <= k < |n|
      ensures Rank(n[k].s) <= Rank(y)
    {
      if k > 0 {
        assert n[k] == n[1..][k - 1];
      }
    }
    if y != n[0].s {
      var k :| 0 <= k < |n[1..]| && n[1..][k].s == y;
      assert n[k + 1].s == y;
    }
  }

  /**
    Merging scalar type names yields the widest non-NULL name present, or
    the NULL name when every entry is NULL; it never fails.
  */
  lemma {:induction false} MergeScalarNames(l: seq<Shape>)
    requires forall i :: 0 <= i < |l| ==> l[i].Str? && (l[i].s == TypeStringNull || IsWideningName(l[i].s))
    ensures Merge(l).Success? && Merge(l).value.Str?
    ensures (forall i :: 0 <= i < |l| ==> IsNull(l[i])) ==> Merge(l).value.s == TypeStringNull
    ensures (exists i :: 0 <= i < |l| && !IsNull(l[i])) ==>
      var y := Merge(l).value.s;
      && IsWideningName(y)
      && (exists i :: 0 <= i < |l| && l[i].s == y)
      && forall i :: 0 <= i < |l| && !IsNull(l[i]) ==> Rank(l[i].s) <= Rank(y)
  {
    if forall i :: 0 <= i < |l| ==> IsNull(l[i]) {
      MergeAllNull(l);
    } else {
      MergeIgnoresNulls(l);
      NonNullEntries(l);
      var n := NonNull(l);
      var w :| 0 <= w < |l| && !IsNull(l[w]);
      assert l[w] in n;
      MergeWidestName(n);
      var y := Merge(l).value.s;
      forall i | 0 <= i < |l| && !IsNull(l[i])
        ensures Rank(l[i].s) <= Rank(y)
      {
        assert l[i] in n;
      }
      var k :| 0 <= k < |n| && n[k].s == y;
      assert n[k] in l;
    }
  }

  // ---------------------------------------------------------------------------
  // Array and object entries
  // ---------------------------------------------------------------------------

  /** A merged array is a one-element array holding the merge of all nested elements. */
  lemma {:induction false} MergeArrayShape(l: seq<Shape>)
    requires Merge(l).Success? && Merge(l).value.Arr?
    ensures |Merge(l).value.elements| == 1
    ensures Merge(NestedElements(l)) == Success(Merge(l).value.elements[0])
  {
  }

  lemma {:induction false} MergeMembersShape(keys: seq<string>, l: seq<Shape>)
    requires |l| > 0 && MergeMembers(keys, l).Success?
    ensures |MergeMembers(keys, l).value| == |keys|
    ensures MemberKeys(MergeMembers(keys, l).value) == keys
    ensures forall i :: 0 <= i < |keys| ==> Merge(ValuesOf(keys[i], l)) == Success(MergeMembers(keys, l).value[i].value)
    decreases |keys|
  {
    if |keys| > 0 {
      var head := Merge(ValuesOf(keys[0], l));
      var tail := MergeMembers(keys[1..], l);
      assert head.Success? && tail.Success?;
      MergeMembersShape(keys[1..], l);
      var ms := MergeMembers(keys, l).value;
      assert ms == [Member(keys[0], head.value)] + tail.value;
      assert keys == [keys[0]] + keys[1..];
      forall i | 0 <= i < |keys|
        ensures Merge(ValuesOf(keys[i], l)) == Success(ms[i].value)
      {
        if i > 0 {
          assert keys[i] == keys[1..][i - 1] && ms[i] == tail.value[i - 1];
        }
      }
    }
  }

  /**
    A merged object has every key of every object entry exactly once, in
    order of first appearance, and each key's value is the merge of the
    values it collected, in encounter order.
  */
  lemma {:induction false} MergeObjectShape(l: seq<Shape>)
    requires Merge(l).Success? && Merge(l).value.Obj?
    ensures var keys := MemberKeys(Merge(l).value.members);
      && |keys| == |Merge(l).value.members|
      && NoDuplicates(keys)
      && (forall k :: k in keys <==> k in AllKeys(l))
      && (forall i, j :: 0 <= i < j < |keys| ==>
            keys[i] in AllKeys(l) && keys[j] in AllKeys(l) && FirstIndex(AllKeys(l), keys[i]) < FirstIndex(AllKeys(l), keys[j]))
      && forall i :: 0 <= i < |keys| ==> Merge(ValuesOf(keys[i], l)) == Success(Merge(l).value.members[i].value)
  {
    var h := Scan(l[1..], HeadOf(l[0])).value;
    assert Merge(l) == MergeAs(h, l);
    var keys := Dedup(AllKeys(l));
    assert Merge(l).value.members == MergeMembers(keys, l).value;
    MergeMembersShape(keys, l);
    DedupElements(AllKeys(l));
    DedupFirstSeenOrder(AllKeys(l));
  }

  // ---------------------------------------------------------------------------
  // The internal error is unreachable from built structures
  // ---------------------------------------------------------------------------

  /** A shape made only of strings, arrays and objects. */
  predicate WellFormed(v: Shape)
    decreases v
  {
    match v
    case Str(_) => true
    case Other(_) => false
    case Arr(es) => forall i :: 0 <= i < |es| ==> WellFormed(es[i])
    case Obj(ms) => forall i :: 0 <= i < |ms| ==> WellFormed(ms[i].value)
  }

  predicate AllWellFormed(l: seq<Shape>) {
    forall i :: 0 <= i < |l| ==> WellFormed(l[i])
  }

  /** The loop's final kind is the kind of its head or of one of the entries. */
  lemma {:induction false} ScanKindFromEntries(rest: seq<Shape>, h: Head)
    requires ConsistentHead(h) && Scan(rest, h).Success?
    ensures Scan(rest, h).value.kind == h.kind
      || exists i :: 0 <= i < |rest| && KindOf(rest[i]) == Scan(rest, h).value.kind
    decreases |rest|
  {
    if |rest| > 0 {
      var e := rest[0];
      var h' := if IsNullHead(h) then HeadOf(e)
        else if IsNull(e) then h
        else Head(h.kind, MaxTypeString(h.typeString, StrOf(e)));
      ScanKindFromEntries(rest[1..], h');
      assert forall i :: 1 <= i < |rest| ==> rest[i] == rest[1..][i - 1];
    }
  }

  lemma {:induction false} NestedElementsWellFormed(l: seq<Shape>)
    requires AllWellFormed(l)
    ensures AllWellFormed(NestedElements(l))
    decreases |l|
  {
    if |l| > 0 {
      assert AllWellFormed(l[1..]) by {
        assert forall i :: 0 <= i < |l[1..]| ==> l[1..][i] == l[i + 1];
      }
      NestedElementsWellFormed(l[1..]);
    }
  }

  lemma {:induction false} ValuesWithKeyWellFormed(k: string, ms: seq<Member>)
    requires forall i :: 0 <= i < |ms| ==> WellFormed(ms[i].value)
    ensures AllWellFormed(ValuesWithKey(k, ms))
    decreases |ms|
  {
    if |ms| > 0 {
      assert forall i :: 0 <= i < |ms[1..]| ==> ms[1..][i] == ms[i + 1];
      ValuesWithKeyWellFormed(k, ms[1..]);
    }
  }

  lemma {:induction false} ValuesOfWellFormed(k: string, l: seq<Shape>)
    requires AllWellFormed(l)
    ensures AllWellFormed(ValuesOf(k, l))
    decreases |l|
  {
    if |l| > 0 {
      assert AllWellFormed(l[1..]) by {
        assert forall i :: 0 <= i < |l[1..]| ==> l[1..][i] == l[i + 1];
      }
      ValuesOfWellFormed(k, l[1..]);
      if l[0].Obj? {
        ValuesWithKeyWellFormed(k, l[0].members);
      }
    }
  }

  /**
    Merging well-formed shapes never reaches the internal "unexpected JSON
    type" error, and a successful merge is well-formed again.
  */
  lemma {:induction false} MergeWellFormed(l: seq<Shape>)
    requires AllWellFormed(l)
    ensures Merge(l) != Failure(UnexpectedType)
    ensures Merge(l).Success? ==> WellFormed(Merge(l).value)
    decreases ListSize(l), 1, 0
  {
    if |l| > 0 {
      var sc := Scan(l[1..], HeadOf(l[0]));
      if sc.Success? {
        ScanKindFromEntries(l[1..], HeadOf(l[0]));
        assert !sc.value.kind.OtherKind? by {
          if sc.value.kind != KindOf(l[0]) {
            var i :| 0 <= i < |l[1..]| && KindOf(l[1..][i]) == sc.value.kind;
            assert WellFormed(l[i + 1]);
          }
        }
        if sc.value.kind == ArrKind {
          NestedElementsSmaller(l);
          NestedElementsWellFormed(l);
          MergeWellFormed(NestedElements(l));
        } else if sc.value.kind == ObjKind {
          MergeMembersWellFormed(Dedup(AllKeys(l)), l);
        }
      }
    }
  }

  lemma {:induction false} MergeMembersWellFormed(keys: seq<string>, l: seq<Shape>)
    requires |l| > 0 && AllWellFormed(l)
    ensures MergeMembers(keys, l) != Failure(UnexpectedType)
    ensures MergeMembers(keys, l).Success? ==>
      forall i :: 0 <= i < |MergeMembers(keys, l).value| ==> WellFormed(MergeMembers(keys, l).value[i].value)
    decreases ListSize(l), 0, |keys|
  {
    if |keys| > 0 {
      ValuesOfSmaller(keys[0], l);
      ValuesOfWellFormed(keys[0], l);
      MergeWellFormed(ValuesOf(keys[0], l));
      MergeMembersWellFormed(keys[1..], l);
      var r := MergeMembers(keys, l);
      if r.Success? {
        var rest := MergeMembers(keys[1..], l).value;
        assert r.value[1..] == rest;
        assert forall i :: 1 <= i < |r.value| ==> r.value[i] == rest[i - 1];
      }
    }
  }

  /**
    Building a structure never raises the internal error and never creates
    a value of another kind than string, array or object.
  */
  lemma {:induction false} BuildWellFormed(j: Json)
    ensures Build(j) != Failure(UnexpectedType)
    ensures Build(j).Success? ==> WellFormed(Build(j).value)
    decreases j, 1
  {
    match j
    case Scalar(_) =>
    case Array(es) =>
      BuildAllWellFormed(es);
      if BuildAll(es).Success? {
        MergeWellFormed(BuildAll(es).value);
      }
    case Object(ms) =>
      BuildMembersWellFormed(ms);
  }

  lemma {:induction false} BuildAllWellFormed(es: seq<Json>)
    ensures BuildAll(es) != Failure(UnexpectedType)
    ensures BuildAll(es).Success? ==> AllWellFormed(BuildAll(es).value)
    decreases es, 0
  {
    if |es| > 0 {
      BuildWellFormed(es[0]);
      BuildAllWellFormed(es[1..]);
      var r := BuildAll(es);
      if r.Success? {
        assert forall i :: 1 <= i < |r.value| ==> r.value[i] == BuildAll(es[1..]).value[i - 1];
      }
    }
  }

  lemma {:induction false} BuildMembersWellFormed(ms: seq<JsonMember>)
    ensures BuildMembers(ms) != Failure(UnexpectedType)
    ensures BuildMembers(ms).Success? ==>
      forall i :: 0 <= i < |BuildMembers(ms).value| ==> WellFormed(BuildMembers(ms).value[i].value)
    decreases ms, 0
  {
    if |ms| > 0 {
      BuildWellFormed(ms[0].value);
      BuildMembersWellFormed(ms[1..]);
      var r := BuildMembers(ms);
      if r.Success? {
        assert forall i :: 1 <= i < |r.value| ==> r.value[i] == BuildMembers(ms[1..]).value[i - 1];
      }
    }
  }

  // ---------------------------------------------------------------------------
  // Shape of a built structure
  // ---------------------------------------------------------------------------

  function JsonKeys(ms: seq<JsonMember>): seq<string> {
    if |ms| == 0 then [] else [ms[0].key] + JsonKeys(ms[1..])
  }

  lemma {:induction false} BuildMembersKeys(ms: seq<JsonMember>)
    requires BuildMembers(ms).Success?
    ensures MemberKeys(BuildMembers(ms).value) == JsonKeys(ms)
    decreases |ms|
  {
    if |ms| > 0 {
      BuildMembersKeys(ms[1..]);
      assert BuildMembers(ms).value[1..] == BuildMembers(ms[1..]).value;
    }
  }

  /** Each member of a built object is the matching document member with its value built. */
  lemma {:induction false} BuildMembersValues(ms: seq<JsonMember>)
    requires BuildMembers(ms).Success?
    ensures |BuildMembers(ms).value| == |ms|
    ensures forall i :: 0 <= i < |ms| ==>
      BuildMembers(ms).value[i].key == ms[i].key && Build(ms[i].value) == Success(BuildMembers(ms).value[i].value)
    decreases |ms|
  {
    if |ms| > 0 {
      BuildMembersValues(ms[1..]);
      var r := BuildMembers(ms).value;
      var rest := BuildMembers(ms[1..]).value;
      assert r == [Member(ms[0].key, Build(ms[0].value).value)] + rest;
      forall i | 0 <= i < |ms|
        ensures r[i].key == ms[i].key && Build(ms[i].value) == Success(r[i].value)
      {
        if i > 0 {
          assert ms[i] == ms[1..][i - 1] && r[i] == rest[i - 1];
        }
      }
    }
  }

  lemma {:induction false} BuildAllLength(es: seq<Json>)
    requires BuildAll(es).Success?
    ensures |BuildAll(es).value| == |es|
    ensures forall i :: 0 <= i < |es| ==> Build(es[i]) == Success(BuildAll(es).value[i])
    decreases |es|
  {
    if |es| > 0 {
      BuildAllLength(es[1..]);
      assert forall i :: 1 <= i < |es| ==> es[i] == es[1..][i - 1];
    }
  }

  /**
    Scalars map to their type name, arrays to a one-element array holding
    the merge of the element shapes, and objects to an object with the same
    keys in the same order, each value built recursively.
  */
  lemma {:induction false} BuildShape(j: Json)
    requires Build(j).Success?
    ensures j.Scalar? ==> Build(j).value == Str(TypeName(j.t))
    ensures j.Array? ==>
      && Build(j).value.Arr? && |Build(j).value.elements| == 1
      && |BuildAll(j.elements).value| == |j.elements|
      && Merge(BuildAll(j.elements).value) == Success(Build(j).value.elements[0])
    ensures j.Array? ==> forall i :: 0 <= i < |j.elements| ==> Build(j.elements[i]) == Success(BuildAll(j.elements).value[i])
    ensures j.Object? ==> Build(j).value.Obj? && MemberKeys(Build(j).value.members) == JsonKeys(j.members)
    ensures j.Object? ==>
      && |Build(j).value.members| == |j.members|
      && forall i :: 0 <= i < |j.members| ==>
           Build(j.members[i].value) == Success(Build(j).value.members[i].value)
  {
    match j
    case Scalar(_) =>
    case Array(es) => BuildAllLength(es);
    case Object(ms) =>
      BuildMembersKeys(ms);
      BuildMembersValues(ms);
  }

  /** The shapes of an array of scalars are their type names. */
  lemma {:induction false} BuildScalarElements(es: seq<Json>)
    requires forall i :: 0 <= i < |es| ==> es[i].Scalar?
    ensures BuildAll(es).Success? && |BuildAll(es).value| == |es|
    ensures forall i :: 0 <= i < |es| ==> BuildAll(es).value[i] == Str(TypeName(es[i].t))
  {
    ScalarsBuild(es);
    BuildAllLength(es);
  }

  /**
    An array of scalars is described by the widest non-NULL scalar type it
    holds, or by NULL when it holds only nulls (or nothing).
  */
  lemma {:induction false} BuildScalarArray(es: seq<Json>)
    requires forall i :: 0 <= i < |es| ==> es[i].Scalar?
    ensures Build(Array(es)).Success?
    ensures var m := Build(Array(es)).value;
      && m.Arr? && |m.elements| == 1 && m.elements[0].Str?
      && ((forall i :: 0 <= i < |es| ==> es[i].t == NullType) ==> m.elements[0].s == TypeStringNull)
      && ((exists i :: 0 <= i < |es| && es[i].t != NullType) ==>
            && IsWideningName(m.elements[0].s)
            && (exists i :: 0 <= i < |es| && TypeName(es[i].t) == m.elements[0].s)
            && forall i :: 0 <= i < |es| && es[i].t != NullType ==> Rank(TypeName(es[i].t)) <= Rank(m.elements[0].s))
  {
    BuildScalarElements(es);
    var shapes := BuildAll(es).value;
    forall i | 0 <= i < |es|
      ensures IsNull(shapes[i]) <==> es[i].t == NullType
      ensures shapes[i].Str? && (shapes[i].s == TypeStringNull || IsWideningName(shapes[i].s))
    {
      TypeNameIsNull(es[i].t);
    }
    MergeScalarNames(shapes);
    var y := Merge(shapes).value.s;
    assert Build(Array(es)) == Success(Arr([Str(y)]));
    if exists i :: 0 <= i < |es| && es[i].t != NullType {
      var w :| 0 <= w < |es| && es[w].t != NullType;
      assert !IsNull(shapes[w]);
      forall i | 0 <= i < |es| && es[i].t != NullType
        ensures Rank(TypeName(es[i].t)) <= Rank(y)
      {
        assert !IsNull(shapes[i]);
      }
      var i :| 0 <= i < |shapes| && shapes[i].s == y;
      assert TypeName(es[i].t) == y;
    }
  }

  lemma {:induction false} TypeNameIsNull(t: ScalarType)
    ensures TypeName(t) == TypeStringNull <==> t == NullType
    ensures t != NullType ==> IsWideningName(TypeName(t))
  {
  }

  lemma {:induction false} ScalarsBuild(es: seq<Json>)
    requires forall i :: 0 <= i < |es| ==> es[i].Scalar?
    ensures BuildAll(es).Success?
    decreases |es|
  {
    if |es| > 0 {
      assert forall i :: 0 <= i < |es[1..]| ==> es[1..][i] == es[i + 1];
      ScalarsBuild(es[1..]);
    }
  }

  // ---------------------------------------------------------------------------
  // Idempotence
  // ---------------------------------------------------------------------------

  /**
    The key the merge reads is the longest NUL-free prefix of the stored key:
    it has no NUL, and the stored key either ends there or goes on with a NUL.
  */
  lemma {:induction false} CKeyCut(k: string)
    ensures '\0' !in CKey(k) && CKey(k) <= k
    ensures |CKey(k)| < |k| ==> k[|CKey(k)|] == '\0'
    decreases |k|
  {
    if |k| > 0 && k[0] != '\0' {
      CKeyCut(k[1..]);
      assert CKey(k) == [k[0]] + CKey(k[1..]);
    }
  }

  /** A key without a NUL is read back unchanged. */
  lemma {:induction false} CKeyOfNulFree(k: string)
    requires '\0' !in k
    ensures CKey(k) == k
    decreases |k|
  {
    if |k| > 0 {
      assert k == [k[0]] + k[1..];
      CKeyOfNulFree(k[1..]);
    }
  }

  predicate NulFreeKeys(ms: seq<Member>) {
    forall i :: 0 <= i < |ms| ==> '\0' !in ms[i].key
  }

  lemma {:induction false} ObjectKeysNulFree(ms: seq<Member>)
    ensures forall k :: k in ObjectKeys(ms) ==> '\0' !in k
    decreases |ms|
  {
    if |ms| > 0 {
      CKeyCut(ms[0].key);
      ObjectKeysNulFree(ms[1..]);
    }
  }

  /** Every key a merge collects has no NUL. */
  lemma {:induction false} AllKeysNulFree(l: seq<Shape>)
    ensures forall k :: k in AllKeys(l) ==> '\0' !in k
    decreases |l|
  {
    if |l| > 0 {
      if l[0].Obj? {
        ObjectKeysNulFree(l[0].members);
      }
      AllKeysNulFree(l[1..]);
    }
  }

  /** An object whose keys have no NUL is read with its keys as stored. */
  lemma {:induction false} ObjectKeysOfNulFree(ms: seq<Member>)
    requires NulFreeKeys(ms)
    ensures ObjectKeys(ms) == MemberKeys(ms)
    decreases |ms|
  {
    if |ms| > 0 {
      CKeyOfNulFree(ms[0].key);
      assert forall i :: 0 <= i < |ms[1..]| ==> ms[1..][i] == ms[i + 1];
      ObjectKeysOfNulFree(ms[1..]);
    }
  }

  /**
    The shapes a merge produces: arrays hold exactly one element and object
    keys are distinct and free of NUL characters.
  */
  predicate Normal(v: Shape)
    decreases v
  {
    match v
    case Str(_) => true
    case Other(_) => false
    case Arr(es) => |es| == 1 && Normal(es[0])
    case Obj(ms) => NoDuplicates(MemberKeys(ms)) && NulFreeKeys(ms) && forall i :: 0 <= i < |ms| ==> Normal(ms[i].value)
  }

  lemma {:induction false} MergeNormal(l: seq<Shape>)
    requires Merge(l).Success?
    ensures Normal(Merge(l).value)
    decreases ListSize(l), 1, 0
  {
    if |l| > 0 {
      var h := Scan(l[1..], HeadOf(l[0])).value;
      if h.kind == ArrKind {
        NestedElementsSmaller(l);
        MergeNormal(NestedElements(l));
      } else if h.kind == ObjKind {
        var keys := Dedup(AllKeys(l));
        MergeMembersNormal(keys, l);
        MergeMembersShape(keys, l);
        DedupElements(AllKeys(l));
        AllKeysNulFree(l);
        var ms := MergeMembers(keys, l).value;
        MemberKeysIndex(ms);
        forall i | 0 <= i < |ms|
          ensures '\0' !in ms[i].key
        {
          assert ms[i].key == keys[i] && keys[i] in AllKeys(l);
        }
      }
    }
  }

  lemma {:induction false} MergeMembersNormal(keys: seq<string>, l: seq<Shape>)
    requires |l| > 0 && MergeMembers(keys, l).Success?
    ensures forall i :: 0 <= i < |MergeMembers(keys, l).value| ==> Normal(MergeMembers(keys, l).value[i].value)
    decreases ListSize(l), 0, |keys|
  {
    if |keys| > 0 {
      ValuesOfSmaller(keys[0], l);
      MergeNormal(ValuesOf(keys[0], l));
      MergeMembersNormal(keys[1..], l);
      var v := Merge(ValuesOf(keys[0], l)).value;
      var rest := MergeMembers(keys[1..], l).value;
      var r := [Member(keys[0], v)] + rest;
      assert MergeMembers(keys, l) == Success(r);
      forall i | 0 <= i < |r|
        ensures Normal(r[i].value)
      {
        if i > 0 {
          assert r[i] == rest[i - 1];
        }
      }
    }
  }

  lemma {:induction false} DedupOfDistinct<T(!new)>(s: seq<T>)
    requires NoDuplicates(s)
    ensures Dedup(s) == s
    decreases |s|
  {
    if |s| > 0 {
      var p := s[..|s| - 1];
      DedupOfDistinct(p);
      assert s[|s| - 1] !in p;
      assert s == p + [s[|s| - 1]];
    }
  }

  lemma {:induction false} MemberSizeBound(ms: seq<Member>, k: nat)
    requires k < |ms|
    ensures Size(ms[k].value) <= MembersSize(ms)
    decreases k
  {
    if k > 0 {
      MemberSizeBound(ms[1..], k - 1);
    }
  }

  /** With distinct keys, a key's values in one object are just its own value. */
  lemma {:induction false} ValuesWithDistinctKey(ms: seq<Member>, k: nat)
    requires k < |ms| && NoDuplicates(MemberKeys(ms)) && NulFreeKeys(ms)
    ensures ValuesWithKey(ms[k].key, ms) == [ms[k].value]
    decreases |ms|
  {
    MemberKeysIndex(ms);
    var key := ms[k].key;
    var tail := ms[1..];
    assert forall i :: 0 <= i < |tail| ==> tail[i] == ms[i + 1];
    assert NoDuplicates(MemberKeys(tail)) by {
      MemberKeysIndex(tail);
    }
    CKeyOfNulFree(ms[0].key);
    if k == 0 {
      forall i | 0 <= i < |tail|
        ensures CKey(tail[i].key) != key
      {
        CKeyOfNulFree(tail[i].key);
        assert MemberKeys(ms)[0] != MemberKeys(ms)[i + 1];
      }
      NoKeyNoValues(key, tail);
    } else {
      assert MemberKeys(ms)[0] != MemberKeys(ms)[k];
      ValuesWithDistinctKey(tail, k - 1);
    }
  }

  lemma {:induction false} NoKeyNoValues(key: string, ms: seq<Member>)
    requires forall i :: 0 <= i < |ms| ==> CKey(ms[i].key) != key
    ensures ValuesWithKey(key, ms) == []
    decreases |ms|
  {
    if |ms| > 0 {
      assert forall i :: 0 <= i < |ms[1..]| ==> ms[1..][i] == ms[i + 1];
      NoKeyNoValues(key, ms[1..]);
    }
  }

  /** A normal shape merged on its own is itself. */
  lemma {:induction false} MergeSingletonNormal(v: Shape)
    requires Normal(v)
    ensures Merge([v]) == Success(v)
    decreases 2 * Size(v) + 1, 0
  {
    match v
    case Str(_) =>
    case Arr(es) =>
      assert NestedElements([v]) == es;
      assert ListSize(es) < Size(v);
      assert es == [es[0]];
      assert ListSize(es) == Size(es[0]) + ListSize(es[1..]);
      MergeSingletonNormal(es[0]);
    case Obj(ms) =>
      MemberKeysIndex(ms);
      assert AllKeys([v]) == MemberKeys(ms) by {
        assert AllKeys([v]) == ObjectKeys(ms) + AllKeys([]);
        ObjectKeysOfNulFree(ms);
      }
      DedupOfDistinct(MemberKeys(ms));
      MergeSingletonMembers(ms, 0);
      assert ms[0..] == ms;
  }

  lemma {:induction false} SingleObjectValues(ms: seq<Member>, k: nat)
    requires k < |ms| && NoDuplicates(MemberKeys(ms)) && NulFreeKeys(ms)
    ensures ValuesOf(ms[k].key, [Obj(ms)]) == [ms[k].value]
  {
    ValuesWithDistinctKey(ms, k);
    assert ValuesOf(ms[k].key, [Obj(ms)]) == ValuesWithKey(ms[k].key, ms) + ValuesOf(ms[k].key, []);
  }

  lemma {:induction false} MergeMembersCons(keys: seq<string>, l: seq<Shape>, v: Shape, rest: seq<Member>)
    requires |keys| > 0 && |l| > 0
    requires Merge(ValuesOf(keys[0], l)) == Success(v) && MergeMembers(keys[1..], l) == Success(rest)
    ensures MergeMembers(keys, l) == Success([Member(keys[0], v)] + rest)
  {
  }

  /** In a normal object, the values collected for one member's key merge back to its value. */
  lemma {:induction false} MergeSingletonValue(ms: seq<Member>, k: nat)
    requires k < |ms| && Normal(Obj(ms))
    ensures Merge(ValuesOf(ms[k].key, [Obj(ms)])) == Success(ms[k].value)
    decreases 2 * MembersSize(ms) + 2, 0
  {
    SingleObjectValues(ms, k);
    assert Normal(ms[k].value);
    MemberSizeBound(ms, k);
    MergeSingletonNormal(ms[k].value);
  }

  lemma {:induction false} MergeSingletonMembers(ms: seq<Member>, k: nat)
    requires k <= |ms| && Normal(Obj(ms))
    ensures |MemberKeys(ms)| == |ms| && MergeMembers(MemberKeys(ms)[k..], [Obj(ms)]) == Success(ms[k..])
    decreases 2 * MembersSize(ms) + 2, |ms| - k + 1
  {
    MemberKeysIndex(ms);
    if k < |ms| {
      MergeSingletonValue(ms, k);
      MergeSingletonMembers(ms, k + 1);
      MergeMembersSuffix(ms, k, [Obj(ms)]);
    } else {
      assert MemberKeys(ms)[k..] == [] && ms[k..] == [];
    }
  }

  /** One step of merging the members from position `k` on: this member's value, then the rest. */
  lemma {:induction false} MergeMembersSuffix(ms: seq<Member>, k: nat, l: seq<Shape>)
    requires k < |ms| && |l| > 0
    requires Merge(ValuesOf(ms[k].key, l)) == Success(ms[k].value)
    requires |MemberKeys(ms)| == |ms| && MergeMembers(MemberKeys(ms)[k + 1..], l) == Success(ms[k + 1..])
    ensures MergeMembers(MemberKeys(ms)[k..], l) == Success(ms[k..])
  {
    var all := MemberKeys(ms);
    MemberKeysIndex(ms);
    assert all[k] == ms[k].key;
    SliceStep(all, k);
    MergeMembersCons(all[k..], l, ms[k].value, ms[k + 1..]);
    SliceStep(ms, k);
  }

  lemma {:induction false} SliceStep<T>(s: seq<T>, k: nat)
    requires k < |s|
    ensures |s[k..]| > 0 && s[k..][0] == s[k] && s[k..][1..] == s[k + 1..]
    ensures s[k..] == [s[k]] + s[k + 1..]
  {
  }

  /** Merging is idempotent: re-merging a merge result on its own changes nothing. */
  lemma {:induction false} MergeIdempotent(l: seq<Shape>)
    requires Merge(l).Success?
    ensures Merge([Merge(l).value]) == Merge(l)
  {
    MergeNormal(l);
    MergeSingletonNormal(Merge(l).value);
  }

  // ---------------------------------------------------------------------------
  // Worked examples
  // ---------------------------------------------------------------------------

  /** `[1, 2.5, null]` is an array of DOUBLE. */
  lemma {:induction false} ExampleNumbersWiden()
    ensures Build(Array([Scalar(UBigintType), Scalar(DoubleType), Scalar(NullType)]))
      == Success(Arr([Str(TypeStringDouble)]))
  {
  }

  /**
    `[{"a\u0000b": 1, "a\u0000c": true}]`: building keeps both keys whole, but
    the merge reads each only up to its NUL, so both become "a" and their
    values widen to UBIGINT.
  */
  lemma {:induction false} ExampleNulKeysMerge()
    ensures Build(Array([Object([JsonMember("a\0b", Scalar(UBigintType)), JsonMember("a\0c", Scalar(BooleanType))])]))
      == Success(Arr([Obj([Member("a", Str(TypeStringUBigint))])]))
  {
    var jms := [JsonMember("a\0b", Scalar(UBigintType)), JsonMember("a\0c", Scalar(BooleanType))];
    var ms := [Member("a\0b", Str(TypeStringUBigint)), Member("a\0c", Str(TypeStringBoolean))];
    assert BuildMembers(jms[1..][1..]) == Success([]);
    assert Build(jms[1..][0].value) == Success(Str(TypeStringBoolean));
    assert BuildMembers(jms[1..]) == Success([Member("a\0c", Str(TypeStringBoolean))] + []);
    assert ms[1..] == [Member("a\0c", Str(TypeStringBoolean))] + [];
    assert Build(jms[0].value) == Success(Str(TypeStringUBigint));
    assert BuildMembers(jms) == Success([Member("a\0b", Str(TypeStringUBigint))] + ms[1..]);
    assert ms == [Member("a\0b", Str(TypeStringUBigint))] + ms[1..];
    var obj := Obj(ms);
    assert Build(Object(jms)) == Success(obj);
    var js := [Object(jms)];
    assert BuildAll(js[1..]) == Success([]);
    assert BuildAll(js) == Success([obj] + []);
    assert CKey("a\0b") == "a" && CKey("a\0c") == "a";
    assert ObjectKeys(ms[1..]) == ["a"] + ObjectKeys(ms[1..][1..]);
    assert AllKeys([obj]) == ["a", "a"] by {
      assert AllKeys([obj]) == ObjectKeys(ms) + AllKeys([]);
    }
    assert Dedup(["a", "a"]) == ["a"] by {
      assert ["a", "a"][..1] == ["a"];
      assert Dedup(["a"]) == Dedup([]) + ["a"];
    }
    var vs := [Str(TypeStringUBigint), Str(TypeStringBoolean)];
    assert ValuesWithKey("a", ms[1..]) == [vs[1]] + ValuesWithKey("a", ms[1..][1..]);
    assert ValuesOf("a", [obj]) == vs by {
      assert ValuesOf("a", [obj]) == ValuesWithKey("a", ms) + ValuesOf("a", []);
    }
    assert Merge(vs) == Success(Str(TypeStringUBigint)) by {
      var h := HeadOf(vs[0]);
      assert vs[1..] == [Str(TypeStringBoolean)] && vs[1..][1..] == [];
      assert Scan(vs[1..], h) == Scan([], Head(StrKind, Some(TypeStringUBigint)));
    }
    assert MergeMembers(["a"], [obj]) == Success([Member("a", Str(TypeStringUBigint))] + []) by {
      assert ["a"][1..] == [];
      assert MergeMembers(["a"][1..], [obj]) == Success([]);
    }
    var h := Head(ObjKind, None);
    assert [obj][1..] == [] && Scan([obj][1..], HeadOf(obj)) == Success(h);
    assert Dedup(AllKeys([obj])) == ["a"];
    assert [Member("a", Str(TypeStringUBigint))] + [] == [Member("a", Str(TypeStringUBigint))];
    assert MergeMembers(Dedup(AllKeys([obj])), [obj]) == Success([Member("a", Str(TypeStringUBigint))]);
    assert ConsistentHead(h);
    assert MergeAs(h, [obj]) == Success(Obj([Member("a", Str(TypeStringUBigint))]));
    assert Merge([obj]) == Success(Obj([Member("a", Str(TypeStringUBigint))]));
  }

  /** `[true, [1]]` mixes a scalar and an array. */
  lemma {:induction false} ExampleMixedKinds()
    ensures Build(Array([Scalar(BooleanType), Array([Scalar(UBigintType)])])) == Failure(InconsistentStructure)
  {
    var shapes := [Str(TypeStringBoolean), Arr([Str(TypeStringUBigint)])];
    var inner := [Scalar(UBigintType)];
    assert Build(inner[0]) == Success(Str(TypeStringUBigint));
    assert BuildAll(inner[1..]) == Success([]);
    assert [Str(TypeStringUBigint)] + [] == [Str(TypeStringUBigint)];
    assert BuildAll(inner) == Success([Str(TypeStringUBigint)]);
    MergeSingletonNormal(Str(TypeStringUBigint));
    assert Build(Array(inner)) == Success(Arr([Str(TypeStringUBigint)]));
    var outer := [Scalar(BooleanType), Array(inner)];
    assert outer[1..][1..] == [] && outer[1..][0] == Array(inner);
    assert [Arr([Str(TypeStringUBigint)])] + [] == [Arr([Str(TypeStringUBigint)])];
    assert BuildAll(outer[1..][1..]) == Success([]);
    assert BuildAll(outer[1..]) == Success([Arr([Str(TypeStringUBigint)])]);
    assert Build(outer[0]) == Success(Str(TypeStringBoolean));
    assert [Str(TypeStringBoolean)] + [Arr([Str(TypeStringUBigint)])] == shapes;
    assert BuildAll(outer) == Success(shapes);
    MergeKindMismatch(shapes, 0, 1);
  }
}
