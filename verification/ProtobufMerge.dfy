/** Two encodings back to back, against the merge the Protocol Buffers encoding specification
    prescribes ("Last One Wins"): an embedded message that occurs twice is merged there and
    replaced by the emitted decoder. */
module ProtobufMerge {
  import opened Bits
  import opened Varint
  import opened Protobuf
  import opened ProtobufRoundTrip
  import opened ProtobufTheorems

  // ---- the prescribed merge -----------------------------------------------------------------

  /** Two messages of one type in the same singular field. */
  predicate BothMessages(x: Slot, y: Slot) {
    x.One? && y.One? && x.v.Msg? && y.v.Msg? && |x.v.slots| == |y.v.slots|
  }

  /** Repeated elements are appended, embedded messages merged, everything else replaced. */
  function MergedSlot(x: Slot, y: Slot): Slot
    decreases y, 0
  {
    if BothMessages(x, y) then One(Msg(Merged(x.v.slots, y.v.slots))) else Overlay(x, y)
  }

  function Merged(a: Slots, b: Slots): Slots
    requires |a| == |b|
    decreases b, 0
  {
    seq(|a|, i requires 0 <= i < |a| => MergedSlot(a[i], b[i]))
  }

  /** `x` adds nothing under `y`: no repeated element, no submessage that `y` lacks, and likewise
      inside a message that both have. */
  predicate SilentSlot(x: Slot, y: Slot)
    decreases y, 0
  {
    if BothMessages(x, y) then Silent(x.v.slots, y.v.slots)
    else if x.Many? && y.Many? then x.vs == []
    else y.Many? || !y.v.Undefined? || (x.One? && x.v.Undefined?)
  }

  predicate Silent(a: Slots, b: Slots)
    requires |a| == |b|
    decreases b, 0
  {
    forall i | 0 <= i < |a| :: SilentSlot(a[i], b[i])
  }

  lemma {:induction false} SilentSlotExactly(x: Slot, y: Slot)
    ensures MergedSlot(x, y) == y <==> SilentSlot(x, y)
    decreases y, 0
  {
    if BothMessages(x, y) {
      SilentExactly(x.v.slots, y.v.slots);
    } else if x.Many? && y.Many? {
      assert x.vs + y.vs == y.vs ==> |x.vs| == 0;
      assert [] + y.vs == y.vs;
    }
  }

  lemma {:induction false} SilentExactly(a: Slots, b: Slots)
    requires |a| == |b|
    ensures Merged(a, b) == b <==> Silent(a, b)
    decreases b, 0
  {
    forall i | 0 <= i < |a| ensures MergedSlot(a[i], b[i]) == b[i] <==> SilentSlot(a[i], b[i]) {
      SilentSlotExactly(a[i], b[i]);
    }
    if Merged(a, b) == b {
      forall i | 0 <= i < |a| ensures SilentSlot(a[i], b[i]) {
        assert Merged(a, b)[i] == b[i];
      }
    }
  }

  // ---- what the decoder does instead ----------------------------------------------------------

  /** Wherever both messages have an embedded message, the first one's is silent. */
  predicate NothingToMerge(a: Slots, b: Slots)
    requires |a| == |b|
  {
    forall i | 0 <= i < |a| && BothMessages(a[i], b[i]) :: Silent(a[i].v.slots, b[i].v.slots)
  }

  lemma OverlayIsMerge(a: Slots, b: Slots)
    requires |a| == |b|
    ensures OverlayAll(a, b) == Merged(a, b) <==> NothingToMerge(a, b)
  {
    hide Silent, Merged;
    MergedAt(a, b);
    forall i | 0 <= i < |a|
      ensures OverlayAll(a, b)[i] == Merged(a, b)[i] <==>
              (BothMessages(a[i], b[i]) ==> Silent(a[i].v.slots, b[i].v.slots))
    {
      if BothMessages(a[i], b[i]) { SilentExactly(a[i].v.slots, b[i].v.slots); }
    }
    if OverlayAll(a, b) == Merged(a, b) {
      forall i | 0 <= i < |a| && BothMessages(a[i], b[i]) ensures Silent(a[i].v.slots, b[i].v.slots) {
        assert OverlayAll(a, b)[i] == Merged(a, b)[i];
      }
    }
  }

  lemma MergedAt(a: Slots, b: Slots)
    requires |a| == |b|
    ensures |Merged(a, b)| == |a| && forall i | 0 <= i < |a| :: Merged(a, b)[i] == MergedSlot(a[i], b[i])
  {
  }

  /** Decoding two encodings back to back gives the prescribed merge exactly when there is
      nothing to merge. */
  lemma MergesExactly(schema: Schema, t: nat, a: Slots, b: Slots)
    requires ValidSchema(schema) && t < |schema|
    requires CodableSlots(schema, schema[t], a) && CodableSlots(schema, schema[t], b)
    ensures Decode(schema, t, Encode(schema, schema[t], a) + Encode(schema, schema[t], b)) == Ok(Merged(a, b))
       <==> NothingToMerge(a, b)
  {
    hide Decode, Encode, CodableSlots, NothingToMerge, Merged, OverlayAll;
    CodableSlotsMeans(schema, schema[t], a);
    CodableSlotsMeans(schema, schema[t], b);
    BackToBack(schema, t, a, b);
    OverlayIsMerge(a, b);
  }

  // ---- the smallest pair that differs ------------------------------------------------------------

  /** A message with one embedded message, which holds a repeated field. */
  const NESTED: Schema := [[Field(1, false, Message(1))], [Field(1, true, Bool)]]

  function Holding(vs: seq<Value>): Slots { [One(Msg([Many(vs)]))] }

  lemma FlagCodable()
    ensures Codable(NESTED, Bool, Truth(true))
  {
  }

  lemma InnerCodable(vs: seq<Value>)
    requires vs == [] || vs == [Truth(true)]
    ensures CodableSlots(NESTED, NESTED[1], [Many(vs)])
  {
    FlagCodable();
    assert forall k | 0 <= k < |vs| :: vs[k] == Truth(true);
    assert CodableSlot(NESTED, NESTED[1][0], Many(vs));
  }

  lemma FlagEncoding(f: Field)
    requires f.kind.Bool? && WellTyped(NESTED, Bool, Truth(true)) && !Throws(NESTED, Bool, Truth(true))
    ensures |EncodeOne(NESTED, f, Truth(true))| <= 10
  {
    hide VarintBytes, TagValue;
    WidthBound(ToUint32(TagValue(f)));
    WidthBound(1);
  }

  /** A tag and a flag at most. */
  lemma SmallEncoding(vs: seq<Value>)
    requires vs == [] || vs == [Truth(true)]
    requires WellTypedSlots(NESTED, NESTED[1], [Many(vs)]) && !SlotsThrow(NESTED, NESTED[1], [Many(vs)])
    ensures |Encode(NESTED, NESTED[1], [Many(vs)])| <= 10
  {
    hide EncodeOne;
    var f := NESTED[1][0];
    FlagEncoding(f);
    assert EncodeFirst(NESTED, NESTED[1], [Many(vs)], 0) == [];
    assert Encode(NESTED, NESTED[1], [Many(vs)]) == EncodeSlot(NESTED, f, Many(vs));
    assert EncodeElements(NESTED, f, vs, 0) == [];
    assert vs != [] ==> EncodeElements(NESTED, f, vs, 1) == EncodeOne(NESTED, f, Truth(true));
  }

  lemma EmbeddedCodable(inner: Slots)
    requires CodableSlots(NESTED, NESTED[1], inner) && |Encode(NESTED, NESTED[1], inner)| < TWO_32
    ensures CodableSlots(NESTED, NESTED[0], [One(Msg(inner))])
  {
    hide WellTypedSlots, SlotsThrow, FaithfulSlots, FitsSlots, Encode;
    assert Codable(NESTED, Message(1), Msg(inner));
    OneCodable(Msg(inner));
  }

  lemma OneCodable(v: Value)
    requires Codable(NESTED, Message(1), v)
    ensures CodableSlots(NESTED, NESTED[0], [One(v)])
  {
    hide Codable;
    assert WellTyped(NESTED, Message(1), v) && !Throws(NESTED, Message(1), v) by { CodableMeans(v); }
    CodableMeans(v);
    hide WellTyped, Throws, Faithful, Fits;
    assert CodableSlot(NESTED, NESTED[0][0], One(v));
  }

  lemma CodableMeans(v: Value)
    requires Codable(NESTED, Message(1), v)
    ensures v.Msg? && Faithful(NESTED, Message(1), v) && Fits(NESTED, Message(1), v)
  {
  }

  lemma HoldingCodable(vs: seq<Value>)
    requires vs == [] || vs == [Truth(true)]
    ensures CodableSlots(NESTED, NESTED[0], Holding(vs))
  {
    hide CodableSlots, Encode;
    InnerCodable(vs);
    CodableSlotsMeans(NESTED, NESTED[1], [Many(vs)]);
    SmallEncoding(vs);
    EmbeddedCodable([Many(vs)]);
  }

  /** One element in the first message, none in the second: the decoder drops the element that a
      merge keeps. */
  lemma ReplacedNotMerged()
    ensures CodableSlots(NESTED, NESTED[0], Holding([Truth(true)])) && CodableSlots(NESTED, NESTED[0], Holding([]))
    ensures var a, b := Holding([Truth(true)]), Holding([]);
            Decode(NESTED, 0, Encode(NESTED, NESTED[0], a) + Encode(NESTED, NESTED[0], b)) == Ok(b) && Merged(a, b) == a
  {
    var a, b := Holding([Truth(true)]), Holding([]);
    HoldingCodable([Truth(true)]);
    HoldingCodable([]);
    hide Decode, Encode, CodableSlots, Merged, OverlayAll;
    BackToBack(NESTED, 0, a, b);
    HoldingMerged();
  }

  lemma HoldingMerged()
    ensures var a, b := Holding([Truth(true)]), Holding([]); OverlayAll(a, b) == b && Merged(a, b) == a
  {
    var a, b := Holding([Truth(true)]), Holding([]);
    assert Merged(a[0].v.slots, b[0].v.slots) == a[0].v.slots by {
      assert [Truth(true)] + [] == [Truth(true)];
    }
    assert Merged(a, b) == a;
    assert OverlayAll(a, b) == b;
  }
}
