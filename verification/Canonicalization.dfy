/** Payloads as object graphs, and the normal form each of them has. */
module Payloads {
  import opened Utf16
  import opened JsonTexts

  /** `Other` is a bigint, a function or a symbol. */
  datatype Value =
    | NullValue
    | BoolValue(value: bool)
    | NumberValue(digits: NumberText)
    | MinusZero
    | NonFinite
    | StringValue(text: Text)
    | Undefined
    | Other
    | Ref(address: nat)

  datatype Slot = Empty | Filled(value: Value)

  datatype Property = Property(key: Text, value: Value)

  /** The properties of a record are listed in insertion order. */
  datatype Obj =
    | ArrayObject(slots: seq<Slot>)
    | DateObject(iso: Text)
    | InvalidDate
    | Record(properties: seq<Property>)

  type Heap = map<nat, Obj>

  // --- the order of keys ---

  predicate NoGreater(a: Text, b: Text) {
    if a == [] then true
    else if b == [] then false
    else if a[0] != b[0] then a[0] < b[0]
    else NoGreater(a[1..], b[1..])
  }

  lemma {:induction false} NoGreaterTotal(a: Text, b: Text)
    ensures NoGreater(a, b) || NoGreater(b, a)
    ensures NoGreater(a, b) && NoGreater(b, a) ==> a == b
  {
    if a != [] && b != [] && a[0] == b[0] {
      NoGreaterTotal(a[1..], b[1..]);
      assert a == [a[0]] + a[1..] && b == [b[0]] + b[1..];
    }
  }

  lemma {:induction false} NoGreaterTransitive(a: Text, b: Text, c: Text)
    requires NoGreater(a, b) && NoGreater(b, c)
    ensures NoGreater(a, c)
  {
    if a != [] && a[0] == b[0] == c[0] {
      NoGreaterTransitive(a[1..], b[1..], c[1..]);
    }
  }

  /** The order of keys is that of code units: the first difference decides, and a key precedes its extensions. */
  lemma {:induction false} FirstDifferenceDecides(a: Text, b: Text, k: nat)
    requires k <= |a| && k <= |b| && a[..k] == b[..k]
    ensures k == |a| ==> NoGreater(a, b)
    ensures k == |b| && k < |a| ==> !NoGreater(a, b)
    ensures k < |a| && k < |b| && a[k] != b[k] ==> (NoGreater(a, b) <==> a[k] < b[k])
    decreases k
  {
    if k > 0 {
      assert a[0] == a[..k][0] == b[..k][0] == b[0];
      assert a[1..][..k - 1] == a[..k][1..] == b[..k][1..] == b[1..][..k - 1];
      FirstDifferenceDecides(a[1..], b[1..], k - 1);
    }
  }

  function InsertProperty(s: seq<Property>, p: Property): (r: seq<Property>)
    ensures |r| == |s| + 1 && multiset(r) == multiset(s) + multiset{p}
  {
    if s == [] || NoGreater(s[|s| - 1].key, p.key) then s + [p]
    else
      assert s == s[..|s| - 1] + [s[|s| - 1]];
      InsertProperty(s[..|s| - 1], p) + [s[|s| - 1]]
  }

  function SortProperties(ps: seq<Property>): (r: seq<Property>)
    ensures |r| == |ps| && multiset(r) == multiset(ps)
  {
    if ps == [] then []
    else
      assert ps == ps[..|ps| - 1] + [ps[|ps| - 1]];
      InsertProperty(SortProperties(ps[..|ps| - 1]), ps[|ps| - 1])
  }

  /** The properties that are not undefined. */
  function Defined(ps: seq<Property>): (r: seq<Property>)
    ensures forall i | 0 <= i < |r| :: !r[i].value.Undefined? && r[i] in ps
  {
    if ps == [] then []
    else
      var front, last := Defined(ps[..|ps| - 1]), ps[|ps| - 1];
      if last.value.Undefined? then front else front + [last]
  }

  ghost predicate DistinctKeys(ps: seq<Property>) {
    forall i, j | 0 <= i < j < |ps| :: ps[i].key != ps[j].key
  }

  ghost predicate SortedByKey(ps: seq<Property>) {
    forall i, j | 0 <= i < j < |ps| :: NoGreater(ps[i].key, ps[j].key)
  }

  lemma {:induction false} InsertSorts(s: seq<Property>, p: Property)
    requires SortedByKey(s)
    ensures SortedByKey(InsertProperty(s, p))
  {
    hide NoGreater;
    var k := |s| - 1;
    if s != [] && !NoGreater(s[k].key, p.key) {
      InsertSorts(s[..k], p);
      NoGreaterTotal(s[k].key, p.key);
      var r := InsertProperty(s[..k], p);
      forall i | 0 <= i < |r| ensures NoGreater(r[i].key, s[k].key) {
        assert r[i] in multiset(s[..k]) + multiset{p};
      }
    } else if s != [] {
      forall i | 0 <= i < k ensures NoGreater(s[i].key, p.key) {
        NoGreaterTransitive(s[i].key, s[k].key, p.key);
      }
    }
  }

  lemma {:induction false} SortSorts(ps: seq<Property>)
    ensures SortedByKey(SortProperties(ps))
  {
    if ps != [] {
      SortSorts(ps[..|ps| - 1]);
      InsertSorts(SortProperties(ps[..|ps| - 1]), ps[|ps| - 1]);
    }
  }

  lemma DefinedAppend(ps: seq<Property>, p: Property)
    ensures Defined(ps + [p]) == Defined(ps) + if p.value.Undefined? then [] else [p]
  {
    assert (ps + [p])[..|ps|] == ps;
  }

  lemma {:induction false} InsertDefined(s: seq<Property>, p: Property)
    ensures multiset(Defined(InsertProperty(s, p))) == multiset(Defined(s + [p]))
  {
    DefinedAppend(s, p);
    var k := |s| - 1;
    if s != [] && !NoGreater(s[k].key, p.key) {
      InsertDefined(s[..k], p);
      DefinedAppend(InsertProperty(s[..k], p), s[k]);
      DefinedAppend(s[..k], p);
    }
  }

  lemma {:induction false} SortDefined(ps: seq<Property>)
    ensures multiset(Defined(SortProperties(ps))) == multiset(Defined(ps))
  {
    if ps != [] {
      var front, last := ps[..|ps| - 1], ps[|ps| - 1];
      SortDefined(front);
      InsertDefined(SortProperties(front), last);
      DefinedAppend(SortProperties(front), last);
    }
  }

  lemma {:induction false} DefinedKeepsOrder(ps: seq<Property>)
    requires SortedByKey(ps)
    ensures SortedByKey(Defined(ps))
  {
    if ps != [] {
      var front, last := ps[..|ps| - 1], ps[|ps| - 1];
      DefinedKeepsOrder(front);
      forall i | 0 <= i < |Defined(front)| ensures NoGreater(Defined(front)[i].key, last.key) {
        var j :| 0 <= j < |front| && front[j] == Defined(front)[i];
        assert ps[j] == front[j];
      }
    }
  }

  lemma GreatestAgree(a: seq<Property>, b: seq<Property>)
    requires SortedByKey(a) && SortedByKey(b) && multiset(a) == multiset(b) && DistinctKeys(a) && a != [] && b != []
    ensures a[|a| - 1] == b[|b| - 1]
  {
    hide NoGreater;
    var x, y := a[|a| - 1], b[|b| - 1];
    assert x in multiset(b) && y in multiset(a);
    var i :| 0 <= i < |b| && b[i] == x;
    var j :| 0 <= j < |a| && a[j] == y;
    NoGreaterTotal(x.key, y.key);
    assert i < |b| - 1 ==> NoGreater(x.key, y.key);
    assert j < |a| - 1 ==> NoGreater(y.key, x.key);
  }

  /** A set of properties with distinct keys sorts one way only. */
  lemma {:induction false} SortedOnce(a: seq<Property>, b: seq<Property>)
    requires SortedByKey(a) && SortedByKey(b) && multiset(a) == multiset(b) && DistinctKeys(a)
    ensures a == b
  {
    hide *;
    SameSize(a, b);
    if a != [] {
      GreatestAgree(a, b);
      WithoutLast(a);
      WithoutLast(b);
      SortedOnce(a[..|a| - 1], b[..|b| - 1]);
    }
  }

  lemma SameSize<T>(a: seq<T>, b: seq<T>)
    requires multiset(a) == multiset(b)
    ensures |a| == |b|
  {
    assert |a| == |multiset(a)| && |b| == |multiset(b)|;
  }

  lemma WithoutLast(a: seq<Property>)
    requires a != []
    ensures multiset(a[..|a| - 1]) == multiset(a) - multiset{a[|a| - 1]}
    ensures a == a[..|a| - 1] + [a[|a| - 1]]
    ensures SortedByKey(a) ==> SortedByKey(a[..|a| - 1])
    ensures DistinctKeys(a) ==> DistinctKeys(a[..|a| - 1])
  {
    hide NoGreater;
    assert a == a[..|a| - 1] + [a[|a| - 1]];
  }

  // --- what a value denotes ---

  /** The entries of a record in the order they are encoded. */
  function Encoded(properties: seq<Property>): seq<Property> {
    Defined(SortProperties(properties))
  }

  ghost predicate Denotes(h: Heap, v: Value, n: Normal)
    decreases n, 0
  {
    match v
    case NullValue => n == Null
    case BoolValue(b) => n == Bool(b)
    case NumberValue(digits) => n == Number(digits)
    case MinusZero => n == Number([48])
    case StringValue(text) => n == String(text)
    case Ref(q) =>
      q in h &&
      (match h[q]
       case DateObject(iso) => n == String(iso)
       case ArrayObject(slots) =>
         && n.Array?
         && (if slots == [Empty] then n.items == []
             else |n.items| == |slots| && forall i | 0 <= i < |slots| :: SlotDenotes(h, slots[i], n.items[i]))
       case Record(properties) =>
         var ps := Encoded(properties);
         && n.Object? && |n.entries| == |ps|
         && forall i | 0 <= i < |ps| :: n.entries[i].key == ps[i].key && Denotes(h, ps[i].value, n.entries[i].value)
       case InvalidDate => false)
    case _ => false
  }

  ghost predicate SlotDenotes(h: Heap, s: Slot, n: Normal)
    decreases n, 1
  {
    match s
    case Empty => n == Hole
    case Filled(v) => if v.Undefined? then n == Null else Denotes(h, v, n)
  }

  lemma {:induction false} DenotesOne(h: Heap, v: Value, n: Normal, m: Normal)
    requires Denotes(h, v, n) && Denotes(h, v, m)
    ensures n == m
    decreases n, 0
  {
    if v.Ref? {
      match h[v.address]
      case ArrayObject(slots) =>
        if slots != [Empty] {
          forall i | 0 <= i < |slots| ensures n.items[i] == m.items[i] {
            assert SlotDenotes(h, slots[i], n.items[i]) && SlotDenotes(h, slots[i], m.items[i]);
            if slots[i].Filled? && !slots[i].value.Undefined? {
              DenotesOne(h, slots[i].value, n.items[i], m.items[i]);
            }
          }
          assert n.items == m.items;
        }
      case Record(properties) =>
        var ps := Encoded(properties);
        forall i | 0 <= i < |ps| ensures n.entries[i] == m.entries[i] {
          DenotesOne(h, ps[i].value, n.entries[i].value, m.entries[i].value);
        }
        assert n.entries == m.entries;
      case _ =>
    }
  }

  lemma {:induction false} DenotesNormal(h: Heap, v: Value, n: Normal)
    requires Denotes(h, v, n)
    ensures IsNormal(n)
    decreases n, 0
  {
    if v.Ref? {
      match h[v.address]
      case ArrayObject(slots) =>
        if slots != [Empty] {
          forall i | 0 <= i < |slots| ensures n.items[i].Hole? || IsNormal(n.items[i]) {
            assert SlotDenotes(h, slots[i], n.items[i]);
            if slots[i].Filled? && !slots[i].value.Undefined? { DenotesNormal(h, slots[i].value, n.items[i]); }
          }
          LoneHole(h, slots, n.items);
        }
      case Record(properties) =>
        var ps := Encoded(properties);
        forall i | 0 <= i < |ps| ensures IsNormal(n.entries[i].value) {
          DenotesNormal(h, ps[i].value, n.entries[i].value);
        }
      case _ =>
    }
  }

  lemma LoneHole(h: Heap, slots: seq<Slot>, items: seq<Normal>)
    requires |items| == |slots| && forall i | 0 <= i < |slots| :: SlotDenotes(h, slots[i], items[i])
    requires slots != [Empty]
    ensures items != [Hole]
  {
    assert |slots| == 1 ==> SlotDenotes(h, slots[0], items[0]) && slots == [slots[0]];
  }

  // --- what does not matter ---

  /** The same objects, but that properties may be listed in another order and undefined ones may come or go. */
  ghost predicate Alike(a: Obj, b: Obj) {
    if a.Record? && b.Record?
    then DistinctKeys(a.properties) && DistinctKeys(b.properties) &&
         multiset(Defined(a.properties)) == multiset(Defined(b.properties))
    else a == b
  }

  ghost predicate HeapsAlike(h: Heap, g: Heap) {
    h.Keys == g.Keys && forall q | q in h :: Alike(h[q], g[q])
  }

  lemma {:induction false} DefinedDistinct(ps: seq<Property>)
    requires DistinctKeys(ps)
    ensures DistinctKeys(Defined(ps))
  {
    if ps != [] {
      var front, last := ps[..|ps| - 1], ps[|ps| - 1];
      DefinedDistinct(front);
      forall i | 0 <= i < |Defined(front)| ensures Defined(front)[i].key != last.key {
        var j :| 0 <= j < |front| && front[j] == Defined(front)[i];
        assert ps[j] == front[j];
      }
    }
  }

  lemma SameMultisetDistinct(a: seq<Property>, b: seq<Property>)
    requires DistinctKeys(a) && multiset(a) == multiset(b)
    ensures DistinctKeys(b)
  {
    forall i, j | 0 <= i < j < |b| && b[i].key == b[j].key ensures false {
      assert b[i] in multiset(a) && b[j] in multiset(a);
      var k :| 0 <= k < |a| && a[k] == b[i];
      var l :| 0 <= l < |a| && a[l] == b[j];
      TwiceIn(b, i, j);
      OnceIn(a, k);
    }
  }

  lemma TwiceIn(b: seq<Property>, i: nat, j: nat)
    requires i < j < |b|
    ensures b[i] == b[j] ==> multiset(b)[b[i]] >= 2
  {
    assert b == b[..j] + [b[j]] + b[j + 1..];
    assert b[..j][i] == b[i];
  }

  lemma OnceIn(a: seq<Property>, k: nat)
    requires DistinctKeys(a) && k < |a|
    ensures multiset(a)[a[k]] == 1
  {
    assert a == a[..k] + [a[k]] + a[k + 1..];
    assert a[k] !in a[..k] && a[k] !in a[k + 1..];
  }

  lemma AlikeEncoded(ps: seq<Property>, qs: seq<Property>)
    requires Alike(Record(ps), Record(qs))
    ensures Encoded(ps) == Encoded(qs)
  {
    SortSorts(ps);
    SortSorts(qs);
    DefinedKeepsOrder(SortProperties(ps));
    DefinedKeepsOrder(SortProperties(qs));
    SortDefined(ps);
    SortDefined(qs);
    DefinedDistinct(ps);
    SameMultisetDistinct(Defined(ps), Encoded(ps));
    SortedOnce(Encoded(ps), Encoded(qs));
  }

  /** Neither the order of insertion nor an undefined property changes what a value denotes. */
  lemma {:induction false} InsertionOrderIsIrrelevant(h: Heap, g: Heap, v: Value, n: Normal)
    requires HeapsAlike(h, g) && Denotes(h, v, n)
    ensures Denotes(g, v, n)
    decreases n, 0
  {
    if v.Ref? {
      assert Alike(h[v.address], g[v.address]);
      match h[v.address]
      case ArrayObject(slots) =>
        if slots != [Empty] {
          forall i | 0 <= i < |slots| ensures SlotDenotes(g, slots[i], n.items[i]) {
            assert SlotDenotes(h, slots[i], n.items[i]);
            if slots[i].Filled? && !slots[i].value.Undefined? {
              InsertionOrderIsIrrelevant(h, g, slots[i].value, n.items[i]);
            }
          }
        }
      case Record(properties) =>
        var ps := Encoded(properties);
        AlikeEncoded(properties, g[v.address].properties);
        forall i | 0 <= i < |ps| ensures Denotes(g, ps[i].value, n.entries[i].value) {
          InsertionOrderIsIrrelevant(h, g, ps[i].value, n.entries[i].value);
        }
      case _ =>
    }
  }

  /** Texts agree exactly when the values denote one normal form. */
  lemma SameTextIffSameMeaning(h: Heap, v: Value, n: Normal, g: Heap, w: Value, m: Normal)
    requires Denotes(h, v, n) && Denotes(g, w, m)
    ensures NormalText(n) == NormalText(m) <==> n == m
  {
    hide Denotes, NormalText;
    DenotesNormal(h, v, n);
    DenotesNormal(g, w, m);
    if NormalText(n) == NormalText(m) { NormalTextInjective(n, m); }
  }

  // --- what the texts say of the value ---

  /** Every encoded property is one of the record. */
  lemma EncodedIn(properties: seq<Property>, i: nat) returns (j: nat)
    requires i < |Encoded(properties)|
    ensures j < |properties| && properties[j] == Encoded(properties)[i]
  {
    assert Encoded(properties)[i] in multiset(SortProperties(properties));
    j :| 0 <= j < |properties| && properties[j] == Encoded(properties)[i];
  }

  /** Every property that is not undefined is encoded. */
  lemma EncodedHas(properties: seq<Property>, i: nat) returns (j: nat)
    requires i < |properties| && !properties[i].value.Undefined?
    ensures j < |Encoded(properties)| && Encoded(properties)[j] == properties[i]
  {
    DefinedHas(properties, i);
    SortDefined(properties);
    assert properties[i] in multiset(Encoded(properties));
    hide Encoded;
    j :| 0 <= j < |Encoded(properties)| && Encoded(properties)[j] == properties[i];
  }

  lemma {:induction false} DefinedHas(ps: seq<Property>, i: nat)
    requires i < |ps| && !ps[i].value.Undefined?
    ensures ps[i] in Defined(ps)
  {
    if i < |ps| - 1 { DefinedHas(ps[..|ps| - 1], i); }
  }

  lemma EncodedDistinct(properties: seq<Property>)
    requires DistinctKeys(properties)
    ensures DistinctKeys(Encoded(properties)) && SortedByKey(Encoded(properties))
    ensures |Encoded(properties)| == |Defined(properties)|
  {
    SortSorts(properties);
    DefinedKeepsOrder(SortProperties(properties));
    SortDefined(properties);
    DefinedDistinct(properties);
    SameMultisetDistinct(Defined(properties), Encoded(properties));
    SameSize(Encoded(properties), Defined(properties));
  }

  /** A record is encoded in ascending order of keys ... */
  lemma RecordAscends(h: Heap, q: nat, n: Normal, i: nat, j: nat)
    requires q in h && h[q].Record? && DistinctKeys(h[q].properties) && Denotes(h, Ref(q), n)
    ensures n.Object?
    ensures i < j < |n.entries| ==>
              n.entries[i].key != n.entries[j].key && NoGreater(n.entries[i].key, n.entries[j].key)
  {
    hide Encoded, NoGreater;
    EncodedDistinct(h[q].properties);
  }

  /** ... with an entry for every property that is not undefined ... */
  lemma EntryOfProperty(h: Heap, q: nat, n: Normal, k: nat) returns (i: nat)
    requires q in h && h[q].Record? && Denotes(h, Ref(q), n)
    requires k < |h[q].properties| && h[q].properties[k].value != Undefined
    ensures n.Object? && i < |n.entries|
    ensures n.entries[i].key == h[q].properties[k].key && Denotes(h, h[q].properties[k].value, n.entries[i].value)
  {
    hide Encoded;
    i := EncodedHas(h[q].properties, k);
  }

  /** ... and no other entry. */
  lemma PropertyOfEntry(h: Heap, q: nat, n: Normal, i: nat) returns (k: nat)
    requires q in h && h[q].Record? && Denotes(h, Ref(q), n) && n.Object? && i < |n.entries|
    ensures k < |h[q].properties| && h[q].properties[k].value != Undefined
    ensures h[q].properties[k].key == n.entries[i].key && Denotes(h, h[q].properties[k].value, n.entries[i].value)
  {
    EncodedDefined(h[q].properties, i);
    hide Encoded;
    k := EncodedIn(h[q].properties, i);
  }

  lemma EncodedDefined(properties: seq<Property>, i: nat)
    requires i < |Encoded(properties)|
    ensures Encoded(properties)[i].value != Undefined
  {
  }

  /** An array is encoded slot by slot, an undefined one as `null`. */
  lemma ArrayItems(h: Heap, q: nat, n: Normal, i: nat)
    requires q in h && h[q].ArrayObject? && Denotes(h, Ref(q), n) && h[q].slots != [Empty]
    ensures n.Array? && |n.items| == |h[q].slots|
    ensures i < |n.items| && h[q].slots[i] == Filled(Undefined) ==> n.items[i] == Null
    ensures i < |n.items| && h[q].slots[i].Filled? && h[q].slots[i].value != Undefined ==>
              Denotes(h, h[q].slots[i].value, n.items[i])
  {
    assert i < |n.items| ==> SlotDenotes(h, h[q].slots[i], n.items[i]);
  }

  /** The texts of values that are not objects, and of dates. */
  lemma PrimitiveTexts(h: Heap, v: Value, n: Normal)
    requires Denotes(h, v, n)
    ensures v == NullValue ==> NormalText(n) == Units("null")
    ensures v == BoolValue(true) ==> NormalText(n) == Units("true")
    ensures v == BoolValue(false) ==> NormalText(n) == Units("false")
    ensures v == MinusZero ==> NormalText(n) == Units("0")
    ensures v.NumberValue? ==> NormalText(n) == v.digits
    ensures v.StringValue? ==> NormalText(n) == JsonTexts.Quoted(v.text)
    ensures v.Ref? && h[v.address].DateObject? ==> NormalText(n) == JsonTexts.Quoted(h[v.address].iso)
    ensures v != NonFinite && v != Undefined && v != Other
  {
    ConstantsSpelled();
    if v.StringValue? { QuoteSpelled(v.text); }
    if v.Ref? && h[v.address].DateObject? { QuoteSpelled(h[v.address].iso); }
    hide JsonTexts.Quoted;
  }

  /** An array that holds one hole reads as the empty array. */
  lemma LoneHoleIsLost()
    ensures var h: Heap := map[0 := ArrayObject([]), 1 := ArrayObject([Empty])];
            Denotes(h, Ref(0), Array([])) && Denotes(h, Ref(1), Array([]))
  {
  }
}

/** The encoder: one walk over the object graph with the set of objects it is inside of. */
module Canonicalization {
  import opened Utf16
  import opened JsonStrings
  import opened JsonTexts
  import opened Payloads

  datatype Failure = Circular | Unsupported | InvalidTime

  datatype Result<+T> = Ok(value: T) | Err(error: Failure)

  /** The objects being encoded; each call leaves it as it was. */
  class Seen {
    var objects: set<nat>

    constructor ()
      ensures objects == {}
    {
      objects := {};
    }
  }

  // --- references ---

  ghost predicate Holds(h: Heap, q: nat, v: Value) {
    q in h &&
    match h[q]
    case ArrayObject(slots) => exists i :: 0 <= i < |slots| && slots[i] == Filled(v)
    case Record(properties) => exists i :: 0 <= i < |properties| && properties[i].value == v
    case _ => false
  }

  ghost predicate Leads(h: Heap, q: nat, k: nat, r: nat)
    decreases k
  {
    k > 0 && if k == 1 then Holds(h, q, Ref(r)) else exists m :: Leads(h, q, k - 1, m) && Holds(h, m, Ref(r))
  }

  ghost predicate Inside(h: Heap, q: nat, r: nat) {
    exists k: nat :: Leads(h, q, k, r)
  }

  /** Every reference leads to an object. */
  ghost predicate Closed(h: Heap) {
    forall q, v | Holds(h, q, v) && v.Ref? :: v.address in h
  }

  ghost predicate Denotable(h: Heap, v: Value) {
    exists n :: Denotes(h, v, n)
  }

  predicate IsUnsupported(v: Value) {
    v.Undefined? || v.Other? || v.NonFinite?
  }

  /** What a failure tells of the graph. */
  ghost predicate Justified(h: Heap, v: Value, e: Failure) {
    match e
    case Circular => exists q :: Inside(h, q, q)
    case InvalidTime => exists q :: q in h && h[q].InvalidDate?
    case Unsupported => IsUnsupported(v) || exists q, u :: Holds(h, q, u) && IsUnsupported(u)
  }

  /** Whatever the object at `r` denotes contains something that `v` denotes. */
  ghost predicate Deepens(h: Heap, r: nat, v: Value) {
    forall n | Denotes(h, Ref(r), n) :: exists m :: Denotes(h, v, m) && m < n
  }

  /** A value that would contain what it denotes denotes nothing. */
  lemma {:induction false} NothingContainsItself(h: Heap, r: nat, n: Normal)
    requires Deepens(h, r, Ref(r))
    ensures !Denotes(h, Ref(r), n)
    decreases n
  {
    hide Denotes;
    if Denotes(h, Ref(r), n) {
      var m :| Denotes(h, Ref(r), m) && m < n;
      NothingContainsItself(h, r, m);
    }
  }

  /** What holds for the walk when it comes to `v`: every object it is inside of leads there. */
  ghost predicate OnTheWay(h: Heap, objects: set<nat>, v: Value) {
    && (v.Ref? ==> v.address in h)
    && forall r | r in objects :: Deepens(h, r, v) && (v.Ref? ==> Inside(h, r, v.address))
  }

  lemma InsideExtends(h: Heap, r: nat, q: nat, p: nat)
    requires r == q || Inside(h, r, q)
    requires Holds(h, q, Ref(p))
    ensures Inside(h, r, p)
  {
    if r == q {
      assert Leads(h, r, 1, p);
    } else {
      var k: nat :| Leads(h, r, k, q);
      assert Leads(h, r, k + 1, p);
    }
  }

  lemma DeepensExtends(h: Heap, r: nat, q: nat, v: Value)
    requires r == q || Deepens(h, r, Ref(q))
    requires Deepens(h, q, v)
    ensures Deepens(h, r, v)
  {
    hide Denotes;
    forall n | Denotes(h, Ref(r), n) ensures exists m :: Denotes(h, v, m) && m < n {
      var n' := n;
      if r != q {
        n' :| Denotes(h, Ref(q), n') && n' < n;
      }
      var m :| Denotes(h, v, m) && m < n';
    }
  }

  lemma WayInto(h: Heap, objects: set<nat>, q: nat, v: Value)
    requires Closed(h) && OnTheWay(h, objects, Ref(q)) && Holds(h, q, v) && Deepens(h, q, v)
    ensures OnTheWay(h, objects + {q}, v)
  {
    hide Deepens, Inside, Holds;
    forall r | r in objects + {q} ensures Deepens(h, r, v) && (v.Ref? ==> Inside(h, r, v.address)) {
      DeepensExtends(h, r, q, v);
      if v.Ref? { InsideExtends(h, r, q, v.address); }
    }
  }

  /**
   * The text of what the value denotes, when it denotes anything; circularity is reported only of a graph
   * that has a loop.
   */
  method Encode(h: Heap, v: Value, seen: Seen) returns (r: Result<Text>, ghost n: Normal)
    requires Closed(h) && OnTheWay(h, seen.objects, v)
    modifies seen
    ensures seen.objects == old(seen.objects)
    ensures r.Ok? ==> Denotes(h, v, n) && r.value == NormalText(n)
    ensures r.Err? ==> !Denotable(h, v)
    ensures r.Err? ==> Justified(h, v, r.error)
    decreases h.Keys - seen.objects, 0
  {
    hide Deepens, Inside, Holds;
    n := Null;
    match v {
      case NullValue => r := Ok([110, 117, 108, 108]);
      case BoolValue(b) =>
        n := Bool(b);
        r := Ok(if b then [116, 114, 117, 101] else [102, 97, 108, 115, 101]);
      case NumberValue(digits) =>
        n := Number(digits);
        r := Ok(digits);
      case MinusZero =>
        n := Number([48]);
        r := Ok([48]);
      case StringValue(text) =>
        n := String(text);
        r := Ok(Quote(text));
      case Ref(q) =>
        if q in seen.objects {
          forall m ensures !Denotes(h, v, m) { NothingContainsItself(h, q, m); }
          return Err(Circular), n;
        }
        seen.objects := seen.objects + {q};
        match h[q] {
          case ArrayObject(slots) => r, n := EncodeArray(h, q, seen);
          case DateObject(iso) =>
            n := String(iso);
            r := Ok(Quote(iso));
          case InvalidDate => r := Err(InvalidTime);
          case Record(_) => r, n := EncodeRecord(h, q, seen);
        }
        seen.objects := seen.objects - {q};
      case _ => r := Err(Unsupported);
    }
  }

  method EncodeArray(h: Heap, q: nat, seen: Seen) returns (r: Result<Text>, ghost n: Normal)
    requires Closed(h) && q in h && h[q].ArrayObject? && q in seen.objects && OnTheWay(h, seen.objects - {q}, Ref(q))
    modifies seen
    ensures seen.objects == old(seen.objects)
    ensures r.Ok? ==> Denotes(h, Ref(q), n) && r.value == NormalText(n)
    ensures r.Err? ==> !Denotable(h, Ref(q))
    ensures r.Err? ==> Justified(h, Ref(q), r.error)
    decreases h.Keys - seen.objects, 1
  {
    hide Denotes, Deepens, Inside, Holds, NormalText;
    var slots, items := h[q].slots, [];
    ghost var ns: seq<Normal> := [];
    for i := 0 to |slots|
      invariant seen.objects == old(seen.objects)
      invariant |items| == |ns| == i
      invariant forall j | 0 <= j < i :: SlotDenotes(h, slots[j], ns[j]) && items[j] == NormalText(ns[j])
    {
      match slots[i] {
        case Empty =>
          HoleText();
          items, ns := items + [[]], ns + [Hole];
        case Filled(v) =>
          if v.Undefined? {
            NullText();
            items, ns := items + [[110, 117, 108, 108]], ns + [Null];
          } else {
            SlotHeld(h, q, i);
            WayInto(h, seen.objects - {q}, q, v);
            assert seen.objects - {q} + {q} == seen.objects;
            var item, m := Encode(h, v, seen);
            if item.Err? {
              BadSlot(h, q, i);
              return item, Null;
            }
            items, ns := items + [item.value], ns + [m];
          }
      }
    }
    r := Ok([LEFT_BRACKET] + Join(items, COMMA) + [RIGHT_BRACKET]);
    n := Array(if slots == [Empty] then [] else ns);
    ArrayTexts(h, q, items, ns);
  }

  method EncodeRecord(h: Heap, q: nat, seen: Seen) returns (r: Result<Text>, ghost n: Normal)
    requires Closed(h) && q in h && h[q].Record? && q in seen.objects && OnTheWay(h, seen.objects - {q}, Ref(q))
    modifies seen
    ensures seen.objects == old(seen.objects)
    ensures r.Ok? ==> Denotes(h, Ref(q), n) && r.value == NormalText(n)
    ensures r.Err? ==> !Denotable(h, Ref(q))
    ensures r.Err? ==> Justified(h, Ref(q), r.error)
    decreases h.Keys - seen.objects, 1
  {
    hide Denotes, Deepens, Inside, Holds, NormalText;
    var properties, entries := SortProperties(h[q].properties), [];
    ghost var es: seq<Entry> := [];
    for i := 0 to |properties|
      invariant seen.objects == old(seen.objects)
      invariant |entries| == |es| == |Defined(properties[..i])|
      invariant forall j | 0 <= j < |es| ::
                  EntryDenotes(h, Defined(properties[..i])[j], es[j]) && entries[j] == EntryText(es[j])
    {
      var child := properties[i];
      assert properties[..i + 1] == properties[..i] + [child];
      DefinedAppend(properties[..i], child);
      if child.value != Undefined {
        PropertyHeld(h, q, i);
        WayInto(h, seen.objects - {q}, q, child.value);
        assert seen.objects - {q} + {q} == seen.objects;
        var text, m := Encode(h, child.value, seen);
        if text.Err? {
          BadProperty(h, q, i);
          return text, Null;
        }
        entries := entries + [Quote(child.key) + [COLON] + text.value];
        es := es + [Entry(child.key, m)];
      }
    }
    assert properties[..|properties|] == properties;
    r := Ok([LEFT_BRACE] + Join(entries, COMMA) + [RIGHT_BRACE]);
    n := Object(es);
    RecordTexts(h, q, entries, es);
  }

  ghost predicate EntryDenotes(h: Heap, p: Property, e: Entry) {
    e.key == p.key && Denotes(h, p.value, e.value)
  }

  lemma HoleText()
    ensures NormalText(Hole) == []
  {
  }

  lemma NullText()
    ensures NormalText(Null) == [110, 117, 108, 108]
  {
  }

  lemma SlotHeld(h: Heap, q: nat, i: nat)
    requires q in h && h[q].ArrayObject? && i < |h[q].slots| && h[q].slots[i].Filled?
    requires !h[q].slots[i].value.Undefined?
    ensures Holds(h, q, h[q].slots[i].value) && Deepens(h, q, h[q].slots[i].value)
  {
    hide Denotes;
    forall n | Denotes(h, Ref(q), n) ensures exists m :: Denotes(h, h[q].slots[i].value, m) && m < n {
      SlotOf(h, q, n, i);
      var m := n.items[i];
      assert Denotes(h, h[q].slots[i].value, m) && m < n;
    }
  }

  lemma SlotOf(h: Heap, q: nat, n: Normal, i: nat)
    requires q in h && h[q].ArrayObject? && Denotes(h, Ref(q), n) && i < |h[q].slots| && h[q].slots[i].Filled?
    requires !h[q].slots[i].value.Undefined?
    ensures n.Array? && i < |n.items| && Denotes(h, h[q].slots[i].value, n.items[i]) && n.items[i] < n
  {
    assert SlotDenotes(h, h[q].slots[i], n.items[i]);
  }

  lemma EntryOf(h: Heap, q: nat, n: Normal, j: nat)
    requires q in h && h[q].Record? && Denotes(h, Ref(q), n) && j < |Encoded(h[q].properties)|
    ensures n.Object? && j < |n.entries| && Denotes(h, Encoded(h[q].properties)[j].value, n.entries[j].value)
            && n.entries[j].value < n
  {
    hide SortProperties, Defined;
  }

  lemma BadSlot(h: Heap, q: nat, i: nat)
    requires q in h && h[q].ArrayObject? && i < |h[q].slots| && h[q].slots[i].Filled?
    requires !h[q].slots[i].value.Undefined? && !Denotable(h, h[q].slots[i].value)
    ensures !Denotable(h, Ref(q))
  {
    SlotHeld(h, q, i);
  }

  lemma EncodedIndex(properties: seq<Property>, i: nat) returns (j: nat)
    requires i < |properties| && !properties[i].value.Undefined?
    ensures j < |Defined(properties)| && Defined(properties)[j] == properties[i]
    decreases |properties|
  {
    if i == |properties| - 1 {
      j := |Defined(properties)| - 1;
    } else {
      j := EncodedIndex(properties[..|properties| - 1], i);
    }
  }

  lemma PropertyHeld(h: Heap, q: nat, i: nat)
    requires q in h && h[q].Record? && i < |h[q].properties|
    requires var p := SortProperties(h[q].properties)[i]; !p.value.Undefined?
    ensures var p := SortProperties(h[q].properties)[i]; Holds(h, q, p.value) && Deepens(h, q, p.value)
  {
    hide Denotes, SortProperties, Defined;
    var ps := SortProperties(h[q].properties);
    assert ps[i] in multiset(h[q].properties);
    var j := EncodedIndex(ps, i);
    forall n | Denotes(h, Ref(q), n) ensures exists m :: Denotes(h, ps[i].value, m) && m < n {
      EntryOf(h, q, n, j);
      var m := n.entries[j].value;
      assert Denotes(h, ps[i].value, m) && m < n;
    }
  }

  lemma BadProperty(h: Heap, q: nat, i: nat)
    requires q in h && h[q].Record? && i < |h[q].properties|
    requires var p := SortProperties(h[q].properties)[i]; !p.value.Undefined? && !Denotable(h, p.value)
    ensures !Denotable(h, Ref(q))
  {
    PropertyHeld(h, q, i);
  }

  lemma ArrayTexts(h: Heap, q: nat, items: seq<Text>, ns: seq<Normal>)
    requires q in h && h[q].ArrayObject? && |items| == |ns| == |h[q].slots|
    requires forall j | 0 <= j < |ns| :: SlotDenotes(h, h[q].slots[j], ns[j]) && items[j] == NormalText(ns[j])
    ensures var n := Array(if h[q].slots == [Empty] then [] else ns);
            Denotes(h, Ref(q), n) && NormalText(n) == [LEFT_BRACKET] + Join(items, COMMA) + [RIGHT_BRACKET]
  {
    assert items == ItemTexts(ns);
    ListTexts(Array(ns));
    ListTexts(Array([]));
    if h[q].slots == [Empty] {
      assert SlotDenotes(h, h[q].slots[0], ns[0]);
      assert items[0] == [];
      assert Join(items, COMMA) == [] == Join(ItemTexts([]), COMMA);
    }
  }

  lemma RecordTexts(h: Heap, q: nat, entries: seq<Text>, es: seq<Entry>)
    requires q in h && h[q].Record?
    requires var ps := Encoded(h[q].properties);
             && |entries| == |es| == |ps|
             && forall j | 0 <= j < |es| :: EntryDenotes(h, ps[j], es[j]) && entries[j] == EntryText(es[j])
    ensures Denotes(h, Ref(q), Object(es))
    ensures NormalText(Object(es)) == [LEFT_BRACE] + Join(entries, COMMA) + [RIGHT_BRACE]
  {
    assert entries == EntryTexts(es);
    ListTexts(Object(es));
    var ps := Encoded(h[q].properties);
    assert forall i | 0 <= i < |ps| :: EntryDenotes(h, ps[i], es[i]);
  }

  /** The canonical text of a payload, exactly when the payload denotes a normal form. */
  method Canonicalize(h: Heap, payload: Value) returns (r: Result<Text>)
    requires Closed(h) && (payload.Ref? ==> payload.address in h)
    ensures r.Ok? <==> Denotable(h, payload)
    ensures forall n | Denotes(h, payload, n) :: r == Ok(NormalText(n))
    ensures r.Err? ==> Justified(h, payload, r.error)
  {
    var seen := new Seen();
    ghost var n;
    r, n := Encode(h, payload, seen);
    forall m | Denotes(h, payload, m) ensures r.Ok? ==> m == n {
      if r.Ok? { DenotesOne(h, payload, n, m); }
    }
  }
}
