/** Comparing two runtimes' records (`comparable`, `first_difference` and the lockstep
    loop of `compare` in scripts/s07_binder.py). */
module BinderComparison {
  import opened Results

  /** A JSON value. The fields of an object are listed in key order, as the
      comparison visits them, so that equal objects are equal lists. */
  datatype Json =
    | Null
    | Truth(on: bool)
    | Number(n: int)
    | Text(text: string)
    | Items(items: seq<Json>)
    | Object(fields: seq<Field>)

  datatype Field = Field(key: string, value: Json)

  // --- names up to their raw form ---------------------------------------------------------------------

  /** An observed name whose numeric parts have been identified. */
  predicate IsName(v: Json) {
    && v.Object? && |v.fields| == 2
    && v.fields[0].key == "identity" && v.fields[1].key == "raw_hex" && v.fields[0].value != Null
  }

  function Comparable(v: Json): Json {
    if IsName(v) then Object([Field("identity", Comparable(v.fields[0].value))])
    else
      match v
      case Object(fields) => Object(seq(|fields|, k requires 0 <= k < |fields| => Field(fields[k].key, Comparable(fields[k].value))))
      case Items(items) => Items(seq(|items|, k requires 0 <= k < |items| => Comparable(items[k])))
      case _ => v
  }

  /** The identity a value shows: that of a name, or the only field of an object
      that shows nothing else. */
  function Shown(v: Json): Option<Json> {
    if IsName(v) || (v.Object? && |v.fields| == 1 && v.fields[0].key == "identity") then Some(v.fields[0].value) else None
  }

  /** Equal up to the raw form of identified names. */
  predicate Alike(a: Json, b: Json) {
    if Shown(a).Some? || Shown(b).Some? then
      Shown(a).Some? && Shown(b).Some? && Alike(Shown(a).value, Shown(b).value)
    else
      match a
      case Object(fields) =>
        && b.Object? && |b.fields| == |fields|
        && forall k | 0 <= k < |fields| :: fields[k].key == b.fields[k].key && Alike(fields[k].value, b.fields[k].value)
      case Items(items) =>
        b.Items? && |b.items| == |items| && forall k | 0 <= k < |items| :: Alike(items[k], b.items[k])
      case _ => a == b
  }

  lemma {:induction false} ComparableIffAlike(a: Json, b: Json)
    ensures Comparable(a) == Comparable(b) <==> Alike(a, b)
  {
    ShownSurvives(a);
    ShownSurvives(b);
    if Shown(a).Some? || Shown(b).Some? {
      if Shown(a).Some? && Shown(b).Some? {
        ComparableIffAlike(Shown(a).value, Shown(b).value);
      }
    } else if a.Object? && b.Object? && |a.fields| == |b.fields| {
      forall k | 0 <= k < |a.fields|
        ensures Comparable(a.fields[k].value) == Comparable(b.fields[k].value) <==> Alike(a.fields[k].value, b.fields[k].value)
      {
        ComparableIffAlike(a.fields[k].value, b.fields[k].value);
      }
      FieldsCompare(a, b);
    } else if a.Items? && b.Items? && |a.items| == |b.items| {
      forall k | 0 <= k < |a.items|
        ensures Comparable(a.items[k]) == Comparable(b.items[k]) <==> Alike(a.items[k], b.items[k])
      {
        ComparableIffAlike(a.items[k], b.items[k]);
      }
      ItemsCompare(a, b);
    } else {
      SameShape(a);
      SameShape(b);
    }
  }

  /** A name in two fields: an identity and its literal form. */
  function NameOf(identity: Json, raw: Json): Json {
    Object([Field("identity", identity), Field("raw_hex", raw)])
  }

  /** Two identified names are alike by their identities, whatever their literal forms;
      two unidentified ones by their literal forms; and one of each never. */
  lemma NamesAlike(i: Json, x: Json, j: Json, y: Json)
    ensures Alike(NameOf(i, x), NameOf(j, y)) <==>
            if i == Null && j == Null then Alike(x, y) else i != Null && j != Null && Alike(i, j)
  {
  }

  /** Every other object is compared field by field, a list item by item, and the rest as it is. */
  lemma OthersAlike(x: seq<Field>, y: seq<Field>)
    requires |x| > 2 || (|x| == 2 && x[1].key != "raw_hex") || (|x| == 1 && x[0].key != "identity") || x == []
    requires |y| > 2 || (|y| == 2 && y[1].key != "raw_hex") || (|y| == 1 && y[0].key != "identity") || y == []
    ensures Alike(Object(x), Object(y)) <==>
            |x| == |y| && forall k | 0 <= k < |x| :: x[k].key == y[k].key && Alike(x[k].value, y[k].value)
  {
  }

  lemma ListsAlike(x: seq<Json>, y: seq<Json>)
    ensures Alike(Items(x), Items(y)) <==> |x| == |y| && forall k | 0 <= k < |x| :: Alike(x[k], y[k])
  {
  }

  lemma ScalarsAlike(a: Json, b: Json)
    requires !a.Object? && !a.Items?
    ensures Alike(a, b) <==> a == b
  {
  }

  lemma SameShape(v: Json)
    requires Shown(v).None?
    ensures match v
            case Object(fields) => Comparable(v).Object? && |Comparable(v).fields| == |fields|
            case Items(items) => Comparable(v).Items? && |Comparable(v).items| == |items|
            case _ => Comparable(v) == v
  {
  }

  lemma FieldsCompare(a: Json, b: Json)
    requires a.Object? && b.Object? && Shown(a).None? && Shown(b).None? && |a.fields| == |b.fields|
    ensures Comparable(a) == Comparable(b) <==>
            forall k | 0 <= k < |a.fields| ::
              a.fields[k].key == b.fields[k].key && Comparable(a.fields[k].value) == Comparable(b.fields[k].value)
  {
    var x, y := Comparable(a).fields, Comparable(b).fields;
    assert forall k | 0 <= k < |x| :: x[k] == Field(a.fields[k].key, Comparable(a.fields[k].value));
    assert forall k | 0 <= k < |y| :: y[k] == Field(b.fields[k].key, Comparable(b.fields[k].value));
    assert x == y <==> forall k | 0 <= k < |x| :: x[k] == y[k];
  }

  lemma ItemsCompare(a: Json, b: Json)
    requires a.Items? && b.Items? && |a.items| == |b.items|
    ensures Comparable(a) == Comparable(b) <==> forall k | 0 <= k < |a.items| :: Comparable(a.items[k]) == Comparable(b.items[k])
  {
    var x, y := Comparable(a).items, Comparable(b).items;
    assert forall k | 0 <= k < |x| :: x[k] == Comparable(a.items[k]) && y[k] == Comparable(b.items[k]);
    assert x == y <==> forall k | 0 <= k < |x| :: x[k] == y[k];
  }

  lemma ShownSurvives(v: Json)
    ensures Shown(v).Some? ==> Comparable(v) == Object([Field("identity", Comparable(Shown(v).value))])
    ensures Shown(v).None? && v.Object? ==> |Comparable(v).fields| != 1 || Comparable(v).fields[0].key != "identity"
  {
  }

  /** What is compared. Two identified names are the same by their identities, whatever their
      literal forms; two unidentified ones by those; one of each never. Lists are compared item
      by item, and other objects field by field. */
  lemma ComparableMeans(i: Json, x: Json, j: Json, y: Json, a: seq<Json>, b: seq<Json>)
    ensures Comparable(NameOf(i, x)) == Comparable(NameOf(j, y)) <==>
            if i == Null && j == Null then Comparable(x) == Comparable(y)
            else i != Null && j != Null && Comparable(i) == Comparable(j)
    ensures Comparable(Items(a)) == Comparable(Items(b)) <==>
            |a| == |b| && forall k | 0 <= k < |a| :: Comparable(a[k]) == Comparable(b[k])
  {
    hide Comparable, Alike;
    ComparableIffAlike(NameOf(i, x), NameOf(j, y));
    ComparableIffAlike(i, j);
    ComparableIffAlike(x, y);
    NamesAlike(i, x, j, y);
    ComparableIffAlike(Items(a), Items(b));
    ListsAlike(a, b);
    forall k | 0 <= k < |a| && |a| == |b|
      ensures Comparable(a[k]) == Comparable(b[k]) <==> Alike(a[k], b[k])
    {
      ComparableIffAlike(a[k], b[k]);
    }
  }

  // --- the first difference --------------------------------------------------------------------------

  datatype Step = Key(key: string) | Index(index: nat)

  /** Where two values first differ: at a place itself, or in the length of the lists there. */
  datatype Difference = Difference(path: seq<Step>, length: bool)

  predicate SameKeys(a: seq<Field>, b: seq<Field>) {
    |a| == |b| && forall k | 0 <= k < |a| :: a[k].key == b[k].key
  }

  predicate SameType(a: Json, b: Json) {
    match a
    case Null => b.Null?
    case Truth(_) => b.Truth?
    case Number(_) => b.Number?
    case Text(_) => b.Text?
    case Items(_) => b.Items?
    case Object(_) => b.Object?
  }

  function Under(step: Step, d: Option<Difference>): Option<Difference> {
    if d.None? then None else Some(Difference([step] + d.value.path, d.value.length))
  }

  function FirstDifference(a: Json, b: Json): Option<Difference>
    decreases a, 1, 0
  {
    if !SameType(a, b) then Some(Difference([], false))
    else
      match a
      case Object(fields) => if !SameKeys(fields, b.fields) then Some(Difference([], false)) else FirstField(a, b, 0)
      case Items(items) => if |items| != |b.items| then Some(Difference([], true)) else FirstItem(a, b, 0)
      case _ => if a != b then Some(Difference([], false)) else None
  }

  function FirstField(a: Json, b: Json, k: nat): Option<Difference>
    requires a.Object? && b.Object? && SameKeys(a.fields, b.fields) && k <= |a.fields|
    decreases a, 0, |a.fields| - k
  {
    if k == |a.fields| then None
    else
      var d := Under(Key(a.fields[k].key), FirstDifference(a.fields[k].value, b.fields[k].value));
      if d.Some? then d else FirstField(a, b, k + 1)
  }

  function FirstItem(a: Json, b: Json, k: nat): Option<Difference>
    requires a.Items? && b.Items? && |a.items| == |b.items| && k <= |a.items|
    decreases a, 0, |a.items| - k
  {
    if k == |a.items| then None
    else
      var d := Under(Index(k), FirstDifference(a.items[k], b.items[k]));
      if d.Some? then d else FirstItem(a, b, k + 1)
  }

  lemma {:induction false} NoneIffEqual(a: Json, b: Json)
    ensures FirstDifference(a, b).None? <==> a == b
    decreases a, 1, 0
  {
    hide FirstField, FirstItem;
    if SameType(a, b) && a.Object? && SameKeys(a.fields, b.fields) {
      FieldsFrom(a, b, 0);
    } else if SameType(a, b) && a.Items? && |a.items| == |b.items| {
      ItemsFrom(a, b, 0);
    }
  }

  lemma {:induction false} FieldsFrom(a: Json, b: Json, k: nat)
    requires a.Object? && b.Object? && SameKeys(a.fields, b.fields) && k <= |a.fields|
    ensures FirstField(a, b, k).None? <==> a.fields[k..] == b.fields[k..]
    decreases a, 0, |a.fields| - k
  {
    hide FirstDifference;
    if k < |a.fields| {
      NoneIffEqual(a.fields[k].value, b.fields[k].value);
      FieldsFrom(a, b, k + 1);
      assert a.fields[k..] == [a.fields[k]] + a.fields[k + 1..] && b.fields[k..] == [b.fields[k]] + b.fields[k + 1..];
    }
  }

  lemma {:induction false} ItemsFrom(a: Json, b: Json, k: nat)
    requires a.Items? && b.Items? && |a.items| == |b.items| && k <= |a.items|
    ensures FirstItem(a, b, k).None? <==> a.items[k..] == b.items[k..]
    decreases a, 0, |a.items| - k
  {
    hide FirstDifference;
    if k < |a.items| {
      NoneIffEqual(a.items[k], b.items[k]);
      ItemsFrom(a, b, k + 1);
      assert a.items[k..] == [a.items[k]] + a.items[k + 1..] && b.items[k..] == [b.items[k]] + b.items[k + 1..];
    }
  }

  /** The path leads, in both values, past equal siblings only, to a place where they differ. */
  ghost predicate Leads(a: Json, b: Json, d: Difference)
    decreases |d.path|
  {
    if d.path == [] then
      if d.length then a.Items? && b.Items? && |a.items| != |b.items|
      else !SameType(a, b) || (a.Object? && !SameKeys(a.fields, b.fields)) || (!a.Object? && !a.Items? && a != b)
    else
      match d.path[0]
      case Key(key) =>
        && a.Object? && b.Object? && SameKeys(a.fields, b.fields)
        && exists k :: FirstApart(a.fields, b.fields, k) && a.fields[k].key == key
                       && Leads(a.fields[k].value, b.fields[k].value, d.(path := d.path[1..]))
      case Index(k) =>
        && a.Items? && b.Items? && |a.items| == |b.items| && FirstApart(a.items, b.items, k)
        && Leads(a.items[k], b.items[k], d.(path := d.path[1..]))
  }

  /** The sequences agree up to position `k` and differ there. */
  predicate FirstApart<T(==)>(a: seq<T>, b: seq<T>, k: int) {
    0 <= k < |a| && k < |b| && a[..k] == b[..k] && a[k] != b[k]
  }

  /** What is reported is the first difference, and it is one. */
  lemma {:induction false} DifferenceLeads(a: Json, b: Json)
    requires FirstDifference(a, b).Some?
    ensures Leads(a, b, FirstDifference(a, b).value)
    decreases a, 1, 0
  {
    hide FirstField, FirstItem;
    if SameType(a, b) && a.Object? && SameKeys(a.fields, b.fields) {
      FieldLeads(a, b, 0);
    } else if SameType(a, b) && a.Items? && |a.items| == |b.items| {
      ItemLeads(a, b, 0);
    }
  }

  lemma {:induction false} FieldLeads(a: Json, b: Json, k: nat)
    requires a.Object? && b.Object? && SameKeys(a.fields, b.fields) && k <= |a.fields|
    requires FirstField(a, b, k).Some? && a.fields[..k] == b.fields[..k]
    ensures Leads(a, b, FirstField(a, b, k).value)
    decreases a, 0, |a.fields| - k
  {
    hide FirstDifference;
    var inner := FirstDifference(a.fields[k].value, b.fields[k].value);
    NoneIffEqual(a.fields[k].value, b.fields[k].value);
    if inner.Some? {
      DifferenceLeads(a.fields[k].value, b.fields[k].value);
      var d := FirstField(a, b, k).value;
      assert d.(path := d.path[1..]) == inner.value;
      assert FirstApart(a.fields, b.fields, k);
    } else {
      assert a.fields[..k + 1] == a.fields[..k] + [a.fields[k]] && b.fields[..k + 1] == b.fields[..k] + [b.fields[k]];
      FieldLeads(a, b, k + 1);
    }
  }

  lemma {:induction false} ItemLeads(a: Json, b: Json, k: nat)
    requires a.Items? && b.Items? && |a.items| == |b.items| && k <= |a.items|
    requires FirstItem(a, b, k).Some? && a.items[..k] == b.items[..k]
    ensures Leads(a, b, FirstItem(a, b, k).value)
    decreases a, 0, |a.items| - k
  {
    hide FirstDifference;
    var inner := FirstDifference(a.items[k], b.items[k]);
    NoneIffEqual(a.items[k], b.items[k]);
    if inner.Some? {
      DifferenceLeads(a.items[k], b.items[k]);
      var d := FirstItem(a, b, k).value;
      assert d.(path := d.path[1..]) == inner.value;
    } else {
      assert a.items[..k + 1] == a.items[..k] + [a.items[k]] && b.items[..k + 1] == b.items[..k] + [b.items[k]];
      ItemLeads(a, b, k + 1);
    }
  }

  // --- the lockstep loop -----------------------------------------------------------------------------------

  /** A record as it is compared: a panicking stage's message replaced by its
      identity. `classified` is false for a panic without one. */
  datatype Seen = Seen(record: Json, panic: bool, classified: bool)

  function Compared(s: Seen): Json {
    if s.panic then s.record else Comparable(s.record)
  }

  predicate Agree(a: Seen, b: Seen) {
    a.classified && b.classified && Compared(a) == Compared(b)
  }

  predicate InStep(oracle: seq<Seen>, rust: seq<Seen>) {
    |oracle| == |rust| && forall k | 0 <= k < |oracle| :: Agree(oracle[k], rust[k])
  }

  /** The report: whether the streams are equal, and after how many records on each side. */
  method Compare(oracle: seq<Seen>, rust: seq<Seen>) returns (equal: bool, oracleCount: nat, rustCount: nat)
    ensures equal <==> InStep(oracle, rust)
    ensures oracleCount == |oracle| && rustCount == |rust|
  {
    hide FirstDifference, Comparable;
    equal, oracleCount, rustCount := true, 0, 0;
    while oracleCount < |oracle| || rustCount < |rust|
      invariant oracleCount <= |oracle| && rustCount <= |rust|
      invariant oracleCount == rustCount || oracleCount == |oracle| < rustCount || rustCount == |rust| < oracleCount
      invariant equal <==> oracleCount == rustCount && forall k | 0 <= k < oracleCount :: Agree(oracle[k], rust[k])
      decreases |oracle| - oracleCount + |rust| - rustCount
    {
      if oracleCount < |oracle| && rustCount < |rust| {
        var a, b := oracle[oracleCount], rust[rustCount];
        NoneIffEqual(Compared(a), Compared(b));
        equal := equal && a.classified && b.classified && FirstDifference(Compared(a), Compared(b)).None?;
        oracleCount, rustCount := oracleCount + 1, rustCount + 1;
      } else {
        equal := false;
        if oracleCount < |oracle| {
          oracleCount := oracleCount + 1;
        } else {
          rustCount := rustCount + 1;
        }
      }
    }
  }

  /** Without panics, equal streams are those whose records agree up to the raw form of names. */
  lemma AgreeIffAlike(a: Seen, b: Seen)
    requires !a.panic && !b.panic && a.classified && b.classified
    ensures Agree(a, b) <==> Alike(a.record, b.record)
  {
    ComparableIffAlike(a.record, b.record);
  }
}
