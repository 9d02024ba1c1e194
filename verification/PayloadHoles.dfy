/** Array slots that were never assigned: when a payload has the text it would have with `null` in their place. */
module PayloadHoles {
  import opened JsonTexts
  import opened Payloads
  import opened Canonicalization

  function PluggedSlots(slots: seq<Slot>): (r: seq<Slot>)
    ensures |r| == |slots| && forall i | 0 <= i < |r| :: r[i] == if slots[i].Empty? then Filled(Undefined) else slots[i]
  {
    seq(|slots|, i requires 0 <= i < |slots| => if slots[i].Empty? then Filled(Undefined) else slots[i])
  }

  /** The same payload with `undefined`, which is encoded as `null`, assigned to every hole. */
  function Plugged(h: Heap): (r: Heap)
    ensures r.Keys == h.Keys
  {
    map q | q in h :: if h[q].ArrayObject? then ArrayObject(PluggedSlots(h[q].slots)) else h[q]
  }

  ghost predicate HasHole(h: Heap, q: nat) {
    q in h && h[q].ArrayObject? && Empty in h[q].slots
  }

  /** The value is, or leads through filled slots and properties to, an array with a hole. */
  ghost predicate HoleReached(h: Heap, v: Value) {
    v.Ref? && exists r :: HasHole(h, r) && (r == v.address || Inside(h, v.address, r))
  }

  // --- reaching, one reference at a time ---

  lemma {:induction false} LeadsFront(h: Heap, q: nat, k: nat, r: nat)
    requires Leads(h, q, k, r)
    ensures exists m :: Holds(h, q, Ref(m)) && (m == r || Inside(h, m, r))
  {
    hide Holds, Inside;
    if k == 1 {
      assert Holds(h, q, Ref(r));
    } else {
      var p :| Leads(h, q, k - 1, p) && Holds(h, p, Ref(r));
      LeadsFront(h, q, k - 1, p);
      var m :| Holds(h, q, Ref(m)) && (m == p || Inside(h, m, p));
      InsideExtends(h, m, p, r);
    }
  }

  lemma {:induction false} LeadsBehind(h: Heap, q: nat, m: nat, k: nat, r: nat)
    requires Holds(h, q, Ref(m)) && Leads(h, m, k, r)
    ensures Leads(h, q, k + 1, r)
  {
    hide Holds;
    if k == 1 {
      assert Leads(h, q, 1, m);
    } else {
      var p :| Leads(h, m, k - 1, p) && Holds(h, p, Ref(r));
      LeadsBehind(h, q, m, k - 1, p);
    }
  }

  lemma HoleReachedStep(h: Heap, q: nat)
    ensures HoleReached(h, Ref(q)) <==> HasHole(h, q) || exists m :: Holds(h, q, Ref(m)) && HoleReached(h, Ref(m))
  {
    hide Holds, HasHole, Leads;
    if r :| HasHole(h, r) && Inside(h, q, r) {
      var k: nat :| Leads(h, q, k, r);
      LeadsFront(h, q, k, r);
      var m :| Holds(h, q, Ref(m)) && (m == r || Inside(h, m, r));
      assert HoleReached(h, Ref(m));
    }
    if m :| Holds(h, q, Ref(m)) && HoleReached(h, Ref(m)) {
      var r :| HasHole(h, r) && (r == m || Inside(h, m, r));
      InsideBehind(h, q, m, r);
    }
  }

  lemma InsideBehind(h: Heap, q: nat, m: nat, r: nat)
    requires Holds(h, q, Ref(m)) && (m == r || Inside(h, m, r))
    ensures Inside(h, q, r)
  {
    hide Holds;
    if m == r {
      assert Leads(h, q, 1, r);
    } else {
      var k: nat :| Leads(h, m, k, r);
      LeadsBehind(h, q, m, k, r);
    }
  }

  lemma ArrayReaches(h: Heap, q: nat)
    requires q in h && h[q].ArrayObject?
    ensures var slots := h[q].slots;
            HoleReached(h, Ref(q)) <==>
            exists i :: 0 <= i < |slots| && (slots[i].Empty? || HoleReached(h, slots[i].value))
  {
    hide HoleReached;
    var slots := h[q].slots;
    HoleReachedStep(h, q);
    assert Empty in slots <==> exists i :: 0 <= i < |slots| && slots[i].Empty?;
    if m :| Holds(h, q, Ref(m)) && HoleReached(h, Ref(m)) {
      var i :| 0 <= i < |slots| && slots[i] == Filled(Ref(m));
      assert HoleReached(h, slots[i].value);
    }
    if i :| 0 <= i < |slots| && slots[i].Filled? && HoleReached(h, slots[i].value) {
      OnlyReferencesReach(h, slots[i].value);
      assert Holds(h, q, Ref(slots[i].value.address));
    }
  }

  lemma OnlyReferencesReach(h: Heap, v: Value)
    ensures HoleReached(h, v) ==> v.Ref?
  {
  }

  lemma RecordReaches(h: Heap, q: nat)
    requires q in h && h[q].Record?
    ensures var ps := Encoded(h[q].properties);
            HoleReached(h, Ref(q)) <==> exists i :: 0 <= i < |ps| && HoleReached(h, ps[i].value)
  {
    hide HoleReached, Encoded;
    var properties, ps := h[q].properties, Encoded(h[q].properties);
    HoleReachedStep(h, q);
    if m :| Holds(h, q, Ref(m)) && HoleReached(h, Ref(m)) {
      var i :| 0 <= i < |properties| && properties[i].value == Ref(m);
      var j := EncodedHas(properties, i);
    }
    if i :| 0 <= i < |ps| && HoleReached(h, ps[i].value) {
      var j := EncodedIn(properties, i);
      OnlyReferencesReach(h, ps[i].value);
      assert Holds(h, q, Ref(ps[i].value.address));
    }
  }

  // --- having a meaning does not depend on holes ---

  /** A slot that is encoded without looking at a value. */
  predicate IsBlank(s: Slot) {
    s.Empty? || s.value.Undefined?
  }

  predicate SlotsAlike(slots: seq<Slot>, others: seq<Slot>) {
    |slots| == |others| &&
    forall i | 0 <= i < |slots| :: slots[i] == others[i] || (IsBlank(slots[i]) && IsBlank(others[i]))
  }

  /** The same heap, but that holes and slots holding undefined may stand for each other. */
  ghost predicate AlikeButHoles(h: Heap, g: Heap) {
    h.Keys == g.Keys &&
    forall q | q in h ::
      h[q] == g[q] || (h[q].ArrayObject? && g[q].ArrayObject? && SlotsAlike(h[q].slots, g[q].slots))
  }

  ghost function Meaning(h: Heap, v: Value): (n: Normal)
    requires Denotable(h, v)
    ensures Denotes(h, v, n)
  {
    var n :| Denotes(h, v, n);
    n
  }

  ghost predicate SlotDenotable(h: Heap, s: Slot) {
    IsBlank(s) || Denotable(h, s.value)
  }

  ghost function SlotMeaning(h: Heap, s: Slot): (n: Normal)
    requires SlotDenotable(h, s)
    ensures SlotDenotes(h, s, n)
  {
    if s.Empty? then Hole else if s.value.Undefined? then Null else Meaning(h, s.value)
  }

  lemma ArrayDenotable(h: Heap, q: nat)
    requires q in h && h[q].ArrayObject? && forall i | 0 <= i < |h[q].slots| :: SlotDenotable(h, h[q].slots[i])
    ensures Denotable(h, Ref(q))
  {
    hide SlotDenotes, SlotDenotable;
    var slots := h[q].slots;
    if slots == [Empty] {
      assert Denotes(h, Ref(q), Array([]));
    } else {
      var items := seq(|slots|, i requires 0 <= i < |slots| => SlotMeaning(h, slots[i]));
      assert Denotes(h, Ref(q), Array(items));
    }
  }

  lemma RecordDenotable(h: Heap, q: nat)
    requires q in h && h[q].Record?
    requires forall i | 0 <= i < |Encoded(h[q].properties)| :: Denotable(h, Encoded(h[q].properties)[i].value)
    ensures Denotable(h, Ref(q))
  {
    hide Encoded, Denotable;
    var ps := Encoded(h[q].properties);
    var entries := seq(|ps|, i requires 0 <= i < |ps| => Entry(ps[i].key, Meaning(h, ps[i].value)));
    Denoted(h, Ref(q), Object(entries));
  }

  lemma Denoted(h: Heap, v: Value, n: Normal)
    requires Denotes(h, v, n)
    ensures Denotable(h, v)
  {
  }

  lemma {:induction false} DenotableAlike(h: Heap, g: Heap, v: Value, n: Normal)
    requires AlikeButHoles(h, g) && Denotes(h, v, n)
    ensures Denotable(g, v)
    decreases n
  {
    hide Encoded, Denotable;
    if !v.Ref? {
      Denoted(g, v, n);
      return;
    }
    var q := v.address;
    assert h[q] == g[q] || SlotsAlike(h[q].slots, g[q].slots);
    match h[q]
    case ArrayObject(slots) =>
      forall i | 0 <= i < |slots| ensures SlotDenotable(g, g[q].slots[i]) {
        if !IsBlank(slots[i]) {
          assert SlotDenotes(h, slots[i], n.items[i]);
          DenotableAlike(h, g, slots[i].value, n.items[i]);
        }
      }
      ArrayDenotable(g, q);
    case Record(properties) =>
      forall i | 0 <= i < |Encoded(properties)| ensures Denotable(g, Encoded(properties)[i].value) {
        DenotableAlike(h, g, Encoded(properties)[i].value, n.entries[i].value);
      }
      RecordDenotable(g, q);
    case _ =>
      Denoted(g, v, n);
  }

  lemma PluggedAlike(h: Heap)
    ensures AlikeButHoles(h, Plugged(h)) && AlikeButHoles(Plugged(h), h)
  {
  }

  /** A payload can be encoded exactly when it can with its holes plugged. */
  lemma PluggedDenotableIff(h: Heap, v: Value)
    ensures Denotable(h, v) <==> Denotable(Plugged(h), v)
  {
    hide Denotes, AlikeButHoles;
    PluggedAlike(h);
    if n :| Denotes(h, v, n) { DenotableAlike(h, Plugged(h), v, n); }
    if m :| Denotes(Plugged(h), v, m) { DenotableAlike(Plugged(h), h, v, m); }
  }

  // --- having the same meaning does ---

  lemma ItemsAgree(h: Heap, s: Slot, n: Normal, m: Normal)
    requires SlotDenotes(h, s, n) && SlotDenotes(Plugged(h), if s.Empty? then Filled(Undefined) else s, m)
    requires IsBlank(s) || (n == m <==> !HoleReached(h, s.value))
    ensures n == m <==> !(s.Empty? || HoleReached(h, s.value))
  {
    if s.Filled? { OnlyReferencesReach(h, s.value); }
  }

  lemma {:induction false} SameMeaningIff(h: Heap, v: Value, n: Normal, m: Normal)
    requires Denotes(h, v, n) && Denotes(Plugged(h), v, m)
    ensures n == m <==> !HoleReached(h, v)
    decreases n
  {
    hide Encoded, HoleReached, Plugged;
    OnlyReferencesReach(h, v);
    if v.Ref? {
      var q := v.address;
      PluggedObject(h, q);
      match h[q]
      case ArrayObject(slots) =>
        ArrayReaches(h, q);
        forall i | 0 <= i < |slots| && slots != [Empty]
          ensures n.items[i] == m.items[i] <==> !(slots[i].Empty? || HoleReached(h, slots[i].value))
        {
          assert SlotDenotes(h, slots[i], n.items[i]);
          assert SlotDenotes(Plugged(h), Plugged(h)[q].slots[i], m.items[i]);
          if !IsBlank(slots[i]) { SameMeaningIff(h, slots[i].value, n.items[i], m.items[i]); }
          ItemsAgree(h, slots[i], n.items[i], m.items[i]);
        }
        assert slots != [Empty] ==> (n == m <==> forall i | 0 <= i < |slots| :: n.items[i] == m.items[i]);
      case Record(properties) =>
        var ps := Encoded(properties);
        RecordReaches(h, q);
        forall i | 0 <= i < |ps| ensures n.entries[i] == m.entries[i] <==> !HoleReached(h, ps[i].value) {
          SameMeaningIff(h, ps[i].value, n.entries[i].value, m.entries[i].value);
        }
        assert n == m <==> forall i | 0 <= i < |ps| :: n.entries[i] == m.entries[i];
      case _ =>
        NoHoleHere(h, q);
    }
  }

  lemma PluggedObject(h: Heap, q: nat)
    requires q in h
    ensures q in Plugged(h)
    ensures Plugged(h)[q] == if h[q].ArrayObject? then ArrayObject(PluggedSlots(h[q].slots)) else h[q]
  {
  }

  lemma NoHoleHere(h: Heap, q: nat)
    requires q in h && !h[q].ArrayObject? && !h[q].Record?
    ensures !HoleReached(h, Ref(q))
  {
    hide HoleReached;
    HoleReachedStep(h, q);
  }

  /**
   * Holes are encoded as `null` exactly when none can be reached: a payload has the text it would have with every
   * hole plugged if and only if it does not lead to an array with a hole.
   */
  lemma HolesBecomeNullIff(h: Heap, v: Value, n: Normal, m: Normal)
    requires Denotes(h, v, n) && Denotes(Plugged(h), v, m)
    ensures NormalText(n) == NormalText(m) <==> !HoleReached(h, v)
  {
    hide Denotes, NormalText, HoleReached, Plugged;
    SameMeaningIff(h, v, n, m);
    SameTextIffSameMeaning(h, v, n, Plugged(h), v, m);
  }
}
