/**
  Structure inference of the `json_structure` scalar function.

  A JSON value is mapped to a "shape": every scalar becomes the name of its
  type, every array becomes a one-element array holding the merge of the
  shapes of its elements, and every object keeps its keys with each value
  mapped recursively.  Merging a list of sibling shapes skips NULLs, rejects
  siblings of different kinds and widens scalar type names along
  BOOLEAN < UBIGINT < BIGINT < DOUBLE < VARCHAR; it reads object keys as C
  strings, so a merged key ends before its first NUL character.
*/
module JsonStructure {
  import opened Outcomes

  // ---------------------------------------------------------------------------
  // Type names
  // ---------------------------------------------------------------------------

  const TypeStringNull: string := "NULL"
  const TypeStringBoolean: string := "BOOLEAN"
  const TypeStringUBigint: string := "UBIGINT"
  const TypeStringBigint: string := "BIGINT"
  const TypeStringDouble: string := "DOUBLE"
  const TypeStringVarchar: string := "VARCHAR"

  /** The five non-NULL type names, the domain of the widening order. */
  predicate IsWideningName(s: string) {
    s == TypeStringBoolean || s == TypeStringUBigint || s == TypeStringBigint
    || s == TypeStringDouble || s == TypeStringVarchar
  }

  /** Position of a type name in BOOLEAN < UBIGINT < BIGINT < DOUBLE < VARCHAR. */
  function Rank(s: string): nat
    requires IsWideningName(s)
  {
    if s == TypeStringBoolean then 0
    else if s == TypeStringUBigint then 1
    else if s == TypeStringBigint then 2
    else if s == TypeStringDouble then 3
    else 4
  }

  /**
    `GetMaxTypeString`: an absent name yields the other one, equal names
    yield that name, and otherwise the wider of the two wins.  The final
    branch, reached when neither name is a wider type than BOOLEAN, returns
    BOOLEAN; the debug assertion that both names are BOOLEAN there is not
    checked in release builds, so the model does not assume it.
  */
  function MaxTypeString(a: Option<string>, b: Option<string>): (r: Option<string>)
    ensures r.None? <==> a.None? && b.None?
  {
    if a.None? then b
    else if b.None? then a
    else if a.value == b.value then a
    else if a.value == TypeStringVarchar || b.value == TypeStringVarchar then Some(TypeStringVarchar)
    else if a.value == TypeStringDouble || b.value == TypeStringDouble then Some(TypeStringDouble)
    else if a.value == TypeStringBigint || b.value == TypeStringBigint then Some(TypeStringBigint)
    else if a.value == TypeStringUBigint || b.value == TypeStringUBigint then Some(TypeStringUBigint)
    else Some(TypeStringBoolean)
  }

  // ---------------------------------------------------------------------------
  // JSON values and shapes
  // ---------------------------------------------------------------------------

  /** The scalar kinds a parsed JSON value reports. */
  datatype ScalarType = NullType | BooleanType | UBigintType | BigintType | DoubleType | VarcharType

  /** `ValTypeToString` restricted to scalars. */
  function TypeName(t: ScalarType): string {
    match t
    case NullType => TypeStringNull
    case BooleanType => TypeStringBoolean
    case UBigintType => TypeStringUBigint
    case BigintType => TypeStringBigint
    case DoubleType => TypeStringDouble
    case VarcharType => TypeStringVarchar
  }

  /** A parsed JSON document; object members keep their order and may repeat a key. */
  datatype Json =
    | Scalar(t: ScalarType)
    | Array(elements: seq<Json>)
    | Object(members: seq<JsonMember>)

  datatype JsonMember = JsonMember(key: string, value: Json)

  /**
    A mutable document value built while inferring a structure.  `Other`
    stands for every value kind besides string, array and object (numbers,
    booleans, null, raw); structure building never creates one.
  */
  datatype Shape =
    | Str(s: string)
    | Arr(elements: seq<Shape>)
    | Obj(members: seq<Member>)
    | Other(tag: nat)

  datatype Member = Member(key: string, value: Shape)

  /** The kind a document value reports (`yyjson_mut_get_type`). */
  datatype Kind = StrKind | ArrKind | ObjKind | OtherKind(tag: nat)

  function KindOf(v: Shape): Kind {
    match v
    case Str(_) => StrKind
    case Arr(_) => ArrKind
    case Obj(_) => ObjKind
    case Other(tag) => OtherKind(tag)
  }

  /** The string payload of a value, absent for every non-string (`yyjson_mut_get_str`). */
  function StrOf(v: Shape): Option<string> {
    if v.Str? then Some(v.s) else None
  }

  /** A value is a NULL placeholder when it is the string "NULL". */
  predicate IsNull(v: Shape) {
    v.Str? && v.s == TypeStringNull
  }

  /** The errors structure inference can raise. */
  datatype JsonError =
    | InconsistentStructure   // InvalidInputException("Inconsistent JSON structure")
    | UnexpectedType          // InternalException: a kind other than string, array or object

  // ---------------------------------------------------------------------------
  // Sizes, used as the termination measure of merging
  // ---------------------------------------------------------------------------

  function Size(v: Shape): nat
    decreases v
  {
    match v
    case Str(_) => 1
    case Other(_) => 1
    case Arr(es) => 1 + ListSize(es)
    case Obj(ms) => 1 + MembersSize(ms)
  }

  function ListSize(l: seq<Shape>): nat
    decreases l
  {
    if |l| == 0 then 0 else Size(l[0]) + ListSize(l[1..])
  }

  function MembersSize(ms: seq<Member>): nat
    decreases ms
  {
    if |ms| == 0 then 0 else Size(ms[0].value) + MembersSize(ms[1..])
  }

  lemma {:induction false} ListSizeAppend(a: seq<Shape>, b: seq<Shape>)
    ensures ListSize(a + b) == ListSize(a) + ListSize(b)
    decreases |a|
  {
    if |a| == 0 {
      assert a + b == b;
    } else {
      assert (a + b)[1..] == a[1..] + b;
      ListSizeAppend(a[1..], b);
    }
  }

  // ---------------------------------------------------------------------------
  // What the merge of a list collects from its entries
  // ---------------------------------------------------------------------------

  /** The elements of every array entry, in order; other entries contribute none. */
  function NestedElements(l: seq<Shape>): seq<Shape> {
    if |l| == 0 then []
    else (if l[0].Arr? then l[0].elements else []) + NestedElements(l[1..])
  }

  function MemberKeys(ms: seq<Member>): seq<string> {
    if |ms| == 0 then [] else [ms[0].key] + MemberKeys(ms[1..])
  }

  lemma {:induction false} MemberKeysIndex(ms: seq<Member>)
    ensures |MemberKeys(ms)| == |ms|
    ensures forall i :: 0 <= i < |ms| ==> MemberKeys(ms)[i] == ms[i].key
    decreases |ms|
  {
    if |ms| > 0 {
      MemberKeysIndex(ms[1..]);
      assert forall i :: 1 <= i < |ms| ==> ms[i] == ms[1..][i - 1];
    }
  }

  /**
    A key as the merge of object entries reads it: the key's C string turned
    into a `std::string`, which ends before the first NUL character.
  */
  function CKey(k: string): string
    decreases |k|
  {
    if |k| == 0 || k[0] == '\0' then [] else [k[0]] + CKey(k[1..])
  }

  /** The keys of an object entry as the merge reads them, in member order. */
  function ObjectKeys(ms: seq<Member>): seq<string> {
    if |ms| == 0 then [] else [CKey(ms[0].key)] + ObjectKeys(ms[1..])
  }

  /** The keys of every object entry as the merge reads them, in encounter order, repeats included. */
  function AllKeys(l: seq<Shape>): seq<string> {
    if |l| == 0 then []
    else (if l[0].Obj? then ObjectKeys(l[0].members) else []) + AllKeys(l[1..])
  }

  /** The values of the members whose key, as the merge reads it, is `k`. */
  function ValuesWithKey(k: string, ms: seq<Member>): seq<Shape> {
    if |ms| == 0 then []
    else (if CKey(ms[0].key) == k then [ms[0].value] else []) + ValuesWithKey(k, ms[1..])
  }

  /** Every value stored under key `k` in an object entry, in encounter order. */
  function ValuesOf(k: string, l: seq<Shape>): seq<Shape> {
    if |l| == 0 then []
    else (if l[0].Obj? then ValuesWithKey(k, l[0].members) else []) + ValuesOf(k, l[1..])
  }

  lemma {:induction false} NestedElementsSmaller(l: seq<Shape>)
    ensures ListSize(NestedElements(l)) + |l| <= ListSize(l)
    decreases |l|
  {
    if |l| > 0 {
      NestedElementsSmaller(l[1..]);
      ListSizeAppend(if l[0].Arr? then l[0].elements else [], NestedElements(l[1..]));
    }
  }

  lemma {:induction false} ValuesWithKeySmaller(k: string, ms: seq<Member>)
    ensures ListSize(ValuesWithKey(k, ms)) <= MembersSize(ms)
    decreases |ms|
  {
    if |ms| > 0 {
      ValuesWithKeySmaller(k, ms[1..]);
      var head := if CKey(ms[0].key) == k then [ms[0].value] else [];
      ListSizeAppend(head, ValuesWithKey(k, ms[1..]));
      assert ListSize(head) <= Size(ms[0].value) by {
        if CKey(ms[0].key) == k {
          assert ListSize(head) == Size(ms[0].value) + ListSize(head[1..]);
        }
      }
    }
  }

  lemma {:induction false} ValuesOfSmaller(k: string, l: seq<Shape>)
    ensures ListSize(ValuesOf(k, l)) + |l| <= ListSize(l)
    decreases |l|
  {
    if |l| > 0 {
      ValuesOfSmaller(k, l[1..]);
      var head := if l[0].Obj? then ValuesWithKey(k, l[0].members) else [];
      ListSizeAppend(head, ValuesOf(k, l[1..]));
      if l[0].Obj? {
        ValuesWithKeySmaller(k, l[0].members);
      }
    }
  }

  // ---------------------------------------------------------------------------
  // Order-preserving duplicate removal
  // ---------------------------------------------------------------------------

  predicate NoDuplicates<T(==)>(s: seq<T>) {
    forall i, j :: 0 <= i < j < |s| ==> s[i] != s[j]
  }

  /** Index of the first occurrence of `x` in `s`. */
  function FirstIndex<T(==)>(s: seq<T>, x: T): (i: nat)
    requires x in s
    ensures i < |s| && s[i] == x && x !in s[..i]
  {
    if s[0] == x then 0
    else
      var j := FirstIndex(s[1..], x);
      assert s[..j + 1] == [s[0]] + s[1..][..j];
      j + 1
  }

  lemma {:induction false} FirstIndexUnique<T>(s: seq<T>, x: T, i: nat)
    requires i < |s| && s[i] == x && x !in s[..i]
    ensures FirstIndex(s, x) == i
  {
  }

  lemma {:induction false} FirstIndexPrefix<T>(s: seq<T>, n: nat, x: T)
    requires n <= |s| && x in s[..n]
    ensures FirstIndex(s, x) == FirstIndex(s[..n], x)
  {
    var i := FirstIndex(s[..n], x);
    assert s[..n][..i] == s[..i];
    FirstIndexUnique(s, x, i);
  }

  /**
    Keeps the first occurrence of every element, as the merge of object
    entries records a key the first time it is seen.
  */
  function Dedup<T(==)>(s: seq<T>): seq<T>
    decreases |s|
  {
    if |s| == 0 then []
    else
      var d := Dedup(s[..|s| - 1]);
      var last := s[|s| - 1];
      if last in d then d else d + [last]
  }

  /** Dedup keeps each element of its input exactly once. */
  lemma {:induction false} DedupElements<T>(s: seq<T>)
    ensures NoDuplicates(Dedup(s))
    ensures forall x :: x in Dedup(s) <==> x in s
    decreases |s|
  {
    if |s| > 0 {
      var p := s[..|s| - 1];
      DedupElements(p);
      assert s == p + [s[|s| - 1]];
    }
  }

  lemma {:induction false} DedupMember<T>(s: seq<T>, x: T)
    requires x in Dedup(s)
    ensures x in s
  {
    DedupElements(s);
  }

  /** The elements of `d` occur in `s` and appear in `d` in the order of their first occurrence in `s`. */
  ghost predicate FirstSeenOrder<T>(s: seq<T>, d: seq<T>) {
    forall i, j :: 0 <= i < j < |d| ==> d[i] in s && d[j] in s && FirstIndex(s, d[i]) < FirstIndex(s, d[j])
  }

  /** Extending `s` keeps the order of elements already seen in its first `n` entries. */
  lemma {:induction false} FirstSeenOrderExtends<T>(s: seq<T>, n: nat, d: seq<T>)
    requires n <= |s|
    requires forall x :: x in d ==> x in s[..n]
    requires FirstSeenOrder(s[..n], d)
    ensures FirstSeenOrder(s, d)
    ensures forall k :: 0 <= k < |d| ==> d[k] in s && FirstIndex(s, d[k]) < n
  {
    forall k | 0 <= k < |d|
      ensures d[k] in s && FirstIndex(s, d[k]) == FirstIndex(s[..n], d[k]) < n
    {
      assert d[k] in s[..n];
      FirstIndexPrefix(s, n, d[k]);
    }
  }

  /** A newly seen last element goes after every element seen before it. */
  lemma {:induction false} FirstSeenOrderAppend<T>(s: seq<T>, d: seq<T>)
    requires |s| > 0 && s[|s| - 1] !in s[..|s| - 1]
    requires FirstSeenOrder(s, d)
    requires forall k :: 0 <= k < |d| ==> d[k] in s && FirstIndex(s, d[k]) < |s| - 1
    ensures FirstSeenOrder(s, d + [s[|s| - 1]])
  {
    var n := |s| - 1;
    FirstIndexUnique(s, s[n], n);
    var r := d + [s[n]];
    forall i, j | 0 <= i < j < |r|
      ensures r[i] in s && r[j] in s && FirstIndex(s, r[i]) < FirstIndex(s, r[j])
    {
      assert r[i] == d[i];
      if j < |d| {
        assert r[j] == d[j];
      } else {
        assert r[j] == s[n];
      }
    }
  }

  lemma {:induction false} DedupWithin<T>(s: seq<T>)
    ensures forall x :: x in Dedup(s) ==> x in s
  {
    forall x | x in Dedup(s)
      ensures x in s
    {
      DedupMember(s, x);
    }
  }

  /** Dedup lists elements in the order of their first occurrence. */
  lemma {:induction false} DedupFirstSeenOrder<T>(s: seq<T>)
    ensures FirstSeenOrder(s, Dedup(s))
    decreases |s|
  {
    if |s| > 0 {
      var n := |s| - 1;
      var d := Dedup(s[..n]);
      DedupFirstSeenOrder(s[..n]);
      DedupWithin(s[..n]);
      FirstSeenOrderExtends(s, n, d);
      if s[n] in d {
        assert Dedup(s) == d;
      } else {
        assert s[n] !in s[..n] by {
          DedupElements(s[..n]);
        }
        FirstSeenOrderAppend(s, d);
        assert Dedup(s) == d + [s[n]];
      }
    }
  }

  // ---------------------------------------------------------------------------
  // Merging sibling shapes (GetConsistentArrayStructure)
  // ---------------------------------------------------------------------------

  /** The running `(type, type_string)` pair of the merge loop. */
  datatype Head = Head(kind: Kind, typeString: Option<string>)

  function HeadOf(v: Shape): Head {
    Head(KindOf(v), StrOf(v))
  }

  /** A string head carries a name and no other head does. */
  predicate ConsistentHead(h: Head) {
    h.kind == StrKind <==> h.typeString.Some?
  }

  function IsNullHead(h: Head): bool {
    h.typeString == Some(TypeStringNull)
  }

  /**
    The loop over entries 1..n-1: a NULL head is replaced by the next entry,
    a NULL entry is skipped, an entry of another kind raises the
    inconsistency error, and otherwise the type names are widened.
  */
  function Scan(rest: seq<Shape>, h: Head): (r: Result<Head, JsonError>)
    requires ConsistentHead(h)
    ensures r.Success? ==> ConsistentHead(r.value)
    ensures r.Failure? ==> r.error == InconsistentStructure
  {
    if |rest| == 0 then Success(h)
    else
      var e := rest[0];
      if IsNullHead(h) then Scan(rest[1..], HeadOf(e))
      else if IsNull(e) then Scan(rest[1..], h)
      else if h.kind != KindOf(e) then Failure(InconsistentStructure)
      else Scan(rest[1..], Head(h.kind, MaxTypeString(h.typeString, StrOf(e))))
  }

  /**
    `GetConsistentArrayStructure`: the merge of a list of sibling shapes.
    An empty list merges to "NULL"; otherwise the loop over the entries
    settles the kind of the result.
  */
  function Merge(l: seq<Shape>): Result<Shape, JsonError>
    decreases ListSize(l), 2, 0
  {
    if |l| == 0 then Success(Str(TypeStringNull))
    else
      match Scan(l[1..], HeadOf(l[0]))
      case Failure(e) => Failure(e)
      case Success(h) => MergeAs(h, l)
  }

  /**
    The switch after the loop: arrays merge their nested elements into a
    one-element array, objects merge the values of each key, strings carry
    the widened name and any other kind is an internal error.
  */
  function MergeAs(h: Head, l: seq<Shape>): Result<Shape, JsonError>
    requires |l| > 0 && ConsistentHead(h)
    decreases ListSize(l), 1, 0
  {
    match h.kind
    case ArrKind =>
      NestedElementsSmaller(l);
      var inner :- Merge(NestedElements(l));
      Success(Arr([inner]))
    case ObjKind =>
      var members :- MergeMembers(Dedup(AllKeys(l)), l);
      Success(Obj(members))
    case StrKind => Success(Str(h.typeString.value))
    case OtherKind(_) => Failure(UnexpectedType)
  }

  /** `GetConsistentArrayStructureObject`: one member per key, in the given order. */
  function MergeMembers(keys: seq<string>, l: seq<Shape>): Result<seq<Member>, JsonError>
    requires |l| > 0
    decreases ListSize(l), 0, |keys|
  {
    if |keys| == 0 then Success([])
    else
      ValuesOfSmaller(keys[0], l);
      match Merge(ValuesOf(keys[0], l))
      case Failure(e) => Failure(e)
      case Success(v) =>
        match MergeMembers(keys[1..], l)
        case Failure(e) => Failure(e)
        case Success(rest) => Success([Member(keys[0], v)] + rest)
  }

  // ---------------------------------------------------------------------------
  // Building a structure (BuildStructure)
  // ---------------------------------------------------------------------------

  /** `BuildStructure`: the shape of a JSON document. */
  function Build(j: Json): Result<Shape, JsonError>
    decreases j, 1
  {
    match j
    case Scalar(t) => Success(Str(TypeName(t)))
    case Array(es) =>
      var shapes :- BuildAll(es);
      var m :- Merge(shapes);
      Success(Arr([m]))
    case Object(ms) =>
      var members :- BuildMembers(ms);
      Success(Obj(members))
  }

  /** The shapes of array elements, in order; the first failure wins. */
  function BuildAll(es: seq<Json>): Result<seq<Shape>, JsonError>
    decreases es, 0
  {
    if |es| == 0 then Success([])
    else
      var s :- Build(es[0]);
      var rest :- BuildAll(es[1..]);
      Success([s] + rest)
  }

  /** The members of an object's shape: same keys, same order, values built. */
  function BuildMembers(ms: seq<JsonMember>): Result<seq<Member>, JsonError>
    decreases ms, 0
  {
    if |ms| == 0 then Success([])
    else
      var v :- Build(ms[0].value);
      var rest :- BuildMembers(ms[1..]);
      Success([Member(ms[0].key, v)] + rest)
  }
}
