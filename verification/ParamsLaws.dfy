/** What the `Params` codec promises: round trip, merging, canonical form and size. */
module ParamsLaws {
  import opened Bits
  import opened Wire
  import opened Varint
  import opened Fields
  import opened FieldLaws
  import opened Buffer
  import opened AmountText
  import opened ParamsCodec

  // ------------------------------------------------------------- round trip

  /** p written over q: the fields p leaves out of its bytes keep q's values. */
  function Overlay(q: ParamsValue, p: ParamsValue): ParamsValue {
    ParamsValue(if p.denom == [] then q.denom else p.denom, Settle(p.amount), p.enabled || q.enabled)
  }

  lemma ReadsDenom(q: ParamsValue, denom: seq<byte>, rest: seq<byte>, pos: nat)
    requires pos + |DenomBytes(denom) + rest| <= MAX_INT
    ensures Decoding(q, DenomBytes(denom) + rest, pos)
         == Decoding(if denom == [] then q else q.(denom := denom), rest, pos + |DenomBytes(denom)|)
  {
    hide DelimitedBytes, ReadField;
    if denom == [] {
      assert DenomBytes(denom) + rest == rest;
    } else {
      PayloadFits(0xa, denom);
      ReadDelimited(SCHEMA, 0xa, denom, pos);
      DecodeFirst(SCHEMA, Apply, q, DenomBytes(denom), rest, pos, DelimitedField(1, denom));
    }
  }

  lemma ReadsAmount(q: ParamsValue, a: Amount, rest: seq<byte>, pos: nat)
    requires pos + |DelimitedBytes(0x12, Print(a)) + rest| <= MAX_INT
    ensures Decoding(q, DelimitedBytes(0x12, Print(a)) + rest, pos)
         == Decoding(q.(amount := Settle(a)), rest, pos + |DelimitedBytes(0x12, Print(a))|)
  {
    hide DelimitedBytes, ReadField, Print, Parse;
    PayloadFits(0x12, Print(a));
    ParsePrint(a, q.amount);
    ReadDelimited(SCHEMA, 0x12, Print(a), pos);
    DecodeFirst(SCHEMA, Apply, q, DelimitedBytes(0x12, Print(a)), rest, pos, DelimitedField(2, Print(a)));
  }

  lemma ReadsEnabled(q: ParamsValue, enabled: bool, pos: nat)
    requires pos + |EnabledBytes(enabled)| <= MAX_INT
    ensures Decoding(q, EnabledBytes(enabled), pos) == Done(q.(enabled := enabled || q.enabled))
  {
    hide ReadField;
    if enabled {
      ReadTrue(SCHEMA, 0x18, pos);
      DecodeFirst(SCHEMA, Apply, q, TrueBytes(0x18), [], pos, NumberField(3, 1));
      assert TrueBytes(0x18) + [] == TrueBytes(0x18);
    }
  }

  /** Reading what was written, into any receiver. */
  lemma UnmarshalMarshal(q: ParamsValue, p: ParamsValue, pos: nat)
    requires pos + |Encoding(p)| <= MAX_INT
    ensures Decoding(q, Encoding(p), pos) == Done(Overlay(q, p))
  {
    hide Decoding, DelimitedBytes, DenomBytes, EnabledBytes, Print;
    var a := DelimitedBytes(0x12, Print(p.amount));
    var e := EnabledBytes(p.enabled);
    assert Encoding(p) == DenomBytes(p.denom) + (a + e);
    ReadsDenom(q, p.denom, a + e, pos);
    var q' := if p.denom == [] then q else q.(denom := p.denom);
    ReadsAmount(q', p.amount, e, pos + |DenomBytes(p.denom)|);
    ReadsEnabled(q'.(amount := Settle(p.amount)), p.enabled, pos + |DenomBytes(p.denom)| + |a|);
  }

  /** Into a zero receiver: the record itself, except that an unset amount has become zero. */
  lemma RoundTrip(p: ParamsValue)
    requires Fits(p)
    ensures Decoding(EMPTY, Encoding(p), 0) == Done(Settled(p))
    ensures Decoding(EMPTY, Encoding(p), 0) == Done(p) <==> p.amount.Set?
  {
    hide Encoding, Decoding;
    UnmarshalMarshal(EMPTY, p, 0);
  }

  // ---------------------------------------------------------- canonical form

  /** `Equal`, on records whose amounts hold numbers. */
  predicate Equal(p: ParamsValue, q: ParamsValue)
    requires p.amount.Set? && q.amount.Set?
  {
    p.denom == q.denom && p.amount.value == q.amount.value && p.enabled == q.enabled
  }

  /** Writing does not tell an unset amount from zero. */
  lemma SettledWritesAlike(p: ParamsValue)
    ensures Encoding(Settled(p)) == Encoding(p)
  {
    hide PrintNat;
  }

  /** Two records have the same bytes exactly when they are equal. */
  lemma EncodingsEqualIffEqual(p: ParamsValue, q: ParamsValue)
    requires Fits(p) && Fits(q)
    ensures Encoding(p) == Encoding(q) <==> Equal(Settled(p), Settled(q))
  {
    hide Encoding, Decoding;
    RoundTrip(p);
    RoundTrip(q);
    SettledWritesAlike(p);
    SettledWritesAlike(q);
  }

  // ---------------------------------------------------------- re-encoding size

  /** The bytes the fields that are set will take. */
  function Weight(p: ParamsValue): nat {
    |DenomBytes(p.denom)|
      + (if p.amount.Set? then |DelimitedBytes(0x12, PrintInt(p.amount.value))| else 0)
      + |EnabledBytes(p.enabled)|
  }

  lemma SovMonotone(x: nat, y: nat)
    requires x <= y
    ensures Sov(x) <= Sov(y)
  {
    hide Sov;
    SovIsLength(y);
    SovIsLeast(y, Sov(y));
    SovIsLeast(x, Sov(y));
  }

  /** A length-delimited field takes at least its payload, a tag byte and the shortest length. */
  lemma DelimitedFieldSize(schema: Schema, s: seq<byte>, pos: nat)
    requires pos + |s| <= MAX_INT
    requires ReadField(schema, s, pos).Ok? && ReadField(schema, s, pos).value.field.DelimitedField?
    ensures var Parsed(f, n) := ReadField(schema, s, pos).value;
            1 + |f.payload| + Sov(|f.payload|) <= n
  {
    hide Read, Sov, ReadUnknown;
    var k := ReadTag(s).value.size;
    Minimal(s[k..]);
    SpanFits(s[k..], pos + k);
  }

  lemma NumberFieldSize(schema: Schema, s: seq<byte>, pos: nat)
    requires pos + |s| <= MAX_INT
    requires ReadField(schema, s, pos).Ok? && ReadField(schema, s, pos).value.field.NumberField?
    ensures 2 <= ReadField(schema, s, pos).value.size
  {
    hide ReadTag, ReadUnknown, ReadSpan;
  }

  lemma WeightGrowsByField(p: ParamsValue, s: seq<byte>, pos: nat)
    requires pos + |s| <= MAX_INT
    requires ReadField(SCHEMA, s, pos).Ok?
    requires Apply(p, ReadField(SCHEMA, s, pos).value.field).Done?
    ensures Weight(Apply(p, ReadField(SCHEMA, s, pos).value.field).msg) <= Weight(p) + ReadField(SCHEMA, s, pos).value.size
  {
    hide ReadField, DelimitedBytes, Sov;
    var Parsed(f, n) := ReadField(SCHEMA, s, pos).value;
    match f
    case DelimitedField(num, payload) =>
      DelimitedFieldSize(SCHEMA, s, pos);
      if num == 1 {
        DelimitedSize(0xa, payload);
      } else if payload != [] {
        var a := ParseInt(payload).value;
        PrintParseShrinks(payload);
        SovMonotone(|PrintInt(a)|, |payload|);
        DelimitedSize(0x12, PrintInt(a));
      }
    case NumberField(_, _) =>
      NumberFieldSize(SCHEMA, s, pos);
    case UnknownField(_) =>
  }

  lemma {:induction false} WeightBounded(p: ParamsValue, s: seq<byte>, pos: nat)
    requires pos + |s| <= MAX_INT
    requires Decoding(p, s, pos).Done?
    ensures Weight(Decoding(p, s, pos).msg) <= Weight(p) + |s|
    decreases |s|
  {
    hide ReadField, Apply, Weight;
    if s != [] {
      WeightGrowsByField(p, s, pos);
      var Parsed(f, n) := ReadField(SCHEMA, s, pos).value;
      WeightBounded(Apply(p, f).msg, s[n..], pos + n);
    }
  }

  /**
   Re-encoding an accepted buffer, whose amount texts are plain decimal, grows it by at
   most the three bytes of an absent amount.
   */
  lemma ReencodingIsShort(s: seq<byte>)
    requires |s| <= MAX_INT
    requires Decoding(EMPTY, s, 0).Done?
    ensures |Encoding(Decoding(EMPTY, s, 0).msg)| <= |s| + 3
  {
    hide Decoding, Encode;
    WeightBounded(EMPTY, s, 0);
    SovIsLength(1);
    assert Encode(1) == [1] by { EncodeOne(); }
  }

  lemma EncodeOne()
    ensures Encode(1) == [1]
  {
  }

  /** Decode then encode is idempotent on every such buffer, and keeps its meaning. */
  lemma ReencodingIsCanonical(s: seq<byte>)
    requires |s| <= MAX_INT - 3
    requires Decoding(EMPTY, s, 0).Done?
    ensures var p := Decoding(EMPTY, s, 0).msg; var s' := Encoding(p);
            && |s'| <= MAX_INT
            && Decoding(EMPTY, s', 0) == Done(Settled(p))
            && Encoding(Decoding(EMPTY, s', 0).msg) == s'
  {
    hide Decoding, Encoding;
    var p := Decoding(EMPTY, s, 0).msg;
    ReencodingIsShort(s);
    RoundTrip(p);
    SettledWritesAlike(p);
  }

  // -------------------------------------------------------------- composition

  /** Last one wins: a buffer followed by another is the first, then the second. */
  lemma Concatenation(q: ParamsValue, a: seq<byte>, b: seq<byte>)
    requires |a + b| <= MAX_INT
    requires Decoding(q, a, 0).Done?
    ensures Decoding(q, a + b, 0) == Decoding(Decoding(q, a, 0).msg, b, |a|)
    ensures SameOutcome(Decoding(q, a + b, 0), Decoding(Decoding(q, a, 0).msg, b, 0))
    ensures Decoding(q, a + b, 0) == Decoding(Decoding(q, a, 0).msg, b, 0)
       <==> ReportsAlike(SCHEMA, Apply, Decoding(q, a, 0).msg, b, |a|)
  {
    hide Decode, ReportsAlike;
    JoinedExactlyWhen(SCHEMA, Apply, q, a, b);
  }

  /** The bytes of a denom field cut off after a length that ends at the largest Go int. */
  const LONG_DENOM: seq<byte> := [0xa] + Encode(MAX_INT - 10)

  /**
   Two buffers whose joint `Unmarshal` reports another error than the second does alone,
   from the same receiver: behind two more bytes the announced end wraps around.
   */
  lemma LengthReportExample()
    ensures |LONG_DENOM| == 10
    ensures var on := EMPTY.(enabled := true);
            && Decoding(EMPTY, TrueBytes(0x18), 0) == Done(on)
            && Decoding(on, LONG_DENOM, 0) == Failed(on, UnexpectedEOF)
            && Decoding(EMPTY, TrueBytes(0x18) + LONG_DENOM, 0) == Failed(on, InvalidLength)
  {
    hide ReadField, Decoding;
    var on := EMPTY.(enabled := true);
    assert TrueBytes(0x18) == EnabledBytes(true);
    ReadsEnabled(EMPTY, true, 0);
    LongDenomFails(on, 0);
    LongDenomFails(on, 2);
    Concatenation(EMPTY, TrueBytes(0x18), LONG_DENOM);
  }

  lemma LongDenomFails(q: ParamsValue, pos: nat)
    requires pos <= 2
    ensures |LONG_DENOM| == 10
    ensures Decoding(q, LONG_DENOM, pos) == Failed(q, LengthReport(pos + MAX_INT))
  {
    hide Read, Encode, ReadTag, ReadSpan;
    var v: u64 := MAX_INT - 10;
    NineBytes(v);
    RoundTripVarint(v);
    ReadSmallTag(0xa, Encode(v));
    assert LONG_DENOM[1..] == Encode(v);
    SpanFits(Encode(v), pos + 1);
  }

  lemma RoundTripVarint(v: u64)
    ensures Read(Encode(v)) == Ok(Decoded(v, |Encode(v)|))
  {
    assert Encode(v) + [] == Encode(v);
    Varint.RoundTrip(v, []);
  }

  lemma NineBytes(v: u64)
    requires TWO_63 <= 128 * v && v < TWO_63
    ensures |Encode(v)| == 9
  {
    hide Encode;
    Pow128Nine();
    assert Pow128(9) == 128 * Pow128(8);
    EncodeBound(v, 8);
    EncodeBound(v, 9);
  }

  /** A record appended to any accepted buffer overrides it, unset fields excepted. */
  lemma AppendedRecordWins(q: ParamsValue, a: seq<byte>, p: ParamsValue)
    requires |a + Encoding(p)| <= MAX_INT
    requires Decoding(q, a, 0).Done?
    ensures Decoding(q, a + Encoding(p), 0) == Done(Overlay(Decoding(q, a, 0).msg, p))
  {
    hide Decoding, Encoding;
    Concatenation(q, a, Encoding(p));
    UnmarshalMarshal(Decoding(q, a, 0).msg, p, |a|);
  }

  /** The bytes of a record written out: 50 of "ab", minting on. */
  lemma EncodingExample()
    ensures Encoding(ParamsValue([97, 98], Set(50), true))
         == [0xa, 2, 97, 98, 0x12, 2, 53, 48, 0x18, 1]
  {
    assert PrintInt(50) == [53, 48];
    assert DelimitedBytes(0xa, [97, 98]) == [0xa, 2, 97, 98];
    assert DelimitedBytes(0x12, [53, 48]) == [0x12, 2, 53, 48];
  }

  /** A field number of 2^32 + 1 is field 1: the int32 keeps its low bits. */
  lemma FieldNumberExample()
    ensures |Encode(8 * (TWO_32 + 1) + 2)| <= 10
    ensures Decoding(EMPTY, Encode(8 * (TWO_32 + 1) + 2) + [1, 97], 0) == Done(EMPTY.(denom := [97]))
  {
    hide Read, Encode, ReadField;
    var wire: u64 := 8 * (TWO_32 + 1) + 2;
    var tag := Encode(wire);
    assert Encode(0xa) == [0xa] && DelimitedBytes(0xa, [97]) == [0xa, 1, 97] by { SmallEncodings(); }
    RoundTripVarint(wire);
    RoundTripVarint(0xa);
    U64TakesTen(wire);
    WholeVarint(wire);
    WholeVarint(0xa);
    ReadDelimited(SCHEMA, 0xa, [97], 0);
    assert [0xa] + [1, 97] == [0xa, 1, 97];
    AliasedFieldReads(SCHEMA, [0xa], tag, [1, 97], 0);
    var s := tag + [1, 97];
    DecodeFirst(SCHEMA, Apply, EMPTY, s, [], 0, DelimitedField(1, [97]));
    assert s + [] == s;
    NothingLeft(EMPTY.(denom := [97]), |s|);
  }

  lemma SmallEncodings()
    ensures Encode(0xa) == [0xa] && DelimitedBytes(0xa, [97]) == [0xa, 1, 97]
  {
    assert Encode(1) == [1];
  }

  lemma WholeVarint(v: u64)
    ensures IsVarint(Encode(v))
  {
    RoundTripVarint(v);
  }

  lemma NothingLeft(q: ParamsValue, pos: nat)
    requires pos <= MAX_INT
    ensures Decoding(q, [], pos) == Done(q)
  {
  }

  // ------------------------------------------------------- fields on the wire

  /** Field 1, however its tag and length are written, replaces the denomination. */
  lemma DenomFieldSets(q: ParamsValue, t: seq<byte>, l: seq<byte>, payload: seq<byte>, rest: seq<byte>, pos: nat)
    requires TagOf(t, 1, 2) && IsVarint(l) && Read(l).value.value == |payload|
    requires pos + |t + l + payload + rest| <= MAX_INT
    ensures Decoding(q, t + l + payload + rest, pos) == Decoding(q.(denom := payload), rest, pos + |t + l + payload|)
  {
    hide ReadField, TagOf, IsVarint;
    DelimitedReads(SCHEMA, t, l, payload, pos, 1);
    DecodeHead(SCHEMA, Apply, q, t + l + payload, rest, pos, DelimitedField(1, payload));
  }

  /** Field 2 replaces the amount by its text's number; no text keeps it, other text is refused. */
  lemma AmountFieldSets(q: ParamsValue, t: seq<byte>, l: seq<byte>, payload: seq<byte>, rest: seq<byte>, pos: nat)
    requires TagOf(t, 2, 2) && IsVarint(l) && Read(l).value.value == |payload|
    requires pos + |t + l + payload + rest| <= MAX_INT
    ensures Decoding(q, t + l + payload + rest, pos)
         == if payload == [] then Decoding(q, rest, pos + |t + l + payload|)
            else if ParseInt(payload).Some? then
              Decoding(q.(amount := Set(ParseInt(payload).value)), rest, pos + |t + l + payload|)
            else Failed(q, BadAmount)
  {
    hide ReadField, TagOf, IsVarint, ParseInt;
    DelimitedReads(SCHEMA, t, l, payload, pos, 2);
    DecodeHead(SCHEMA, Apply, q, t + l + payload, rest, pos, DelimitedField(2, payload));
  }

  /** Field 3 sets the flag to whether its varint is not zero, whatever the receiver held. */
  lemma FlagFieldSets(q: ParamsValue, t: seq<byte>, v: seq<byte>, rest: seq<byte>, pos: nat)
    requires TagOf(t, 3, 0) && IsVarint(v)
    requires pos + |t + v + rest| <= MAX_INT
    ensures Decoding(q, t + v + rest, pos) == Decoding(q.(enabled := Read(v).value.value != 0), rest, pos + |t + v|)
  {
    hide ReadField, TagOf, Extent, Digits;
    NumberReads(SCHEMA, t, v, pos, 3);
    DecodeHead(SCHEMA, Apply, q, t + v, rest, pos, NumberField(3, Read(v).value.value));
  }

  /** A whole record of any other field leaves the receiver alone. */
  lemma StrangeFieldIgnored(q: ParamsValue, r: seq<byte>, rest: seq<byte>, pos: nat)
    requires StrangeRecord(r, {1, 2, 3})
    requires pos + |r + rest| <= MAX_INT
    ensures Decoding(q, r + rest, pos) == Decoding(q, rest, pos + |r|)
  {
    hide ReadField, StrangeRecord;
    assert SCHEMA.Keys == {1, 2, 3};
    StrangeReads(SCHEMA, r, pos);
    DecodeHead(SCHEMA, Apply, q, r, rest, pos, UnknownField(r));
  }

  /** The fields a record is written as, in their order. */
  lemma EncodedFields(p: ParamsValue)
    requires Fits(p)
    ensures FieldsOf(SCHEMA, Encoding(p), 0)
         == (if p.denom == [] then [] else [DelimitedField(1, p.denom)])
          + [DelimitedField(2, Print(p.amount))]
          + (if p.enabled then [NumberField(3, 1)] else [])
  {
    hide ReadField, DelimitedBytes, Print, FieldsOf;
    var d, a, e := DenomBytes(p.denom), DelimitedBytes(0x12, Print(p.amount)), EnabledBytes(p.enabled);
    assert Encoding(p) == d + (a + e);
    EnabledFields(p.enabled, |d| + |a|);
    PayloadFits(0x12, Print(p.amount));
    ReadDelimited(SCHEMA, 0x12, Print(p.amount), |d|);
    FieldsOfFirst(SCHEMA, a, e, |d|, DelimitedField(2, Print(p.amount)));
    if p.denom == [] {
      assert d + (a + e) == a + e;
    } else {
      PayloadFits(0xa, p.denom);
      ReadDelimited(SCHEMA, 0xa, p.denom, 0);
      FieldsOfFirst(SCHEMA, d, a + e, 0, DelimitedField(1, p.denom));
    }
  }

  lemma EnabledFields(enabled: bool, pos: nat)
    requires pos + |EnabledBytes(enabled)| <= MAX_INT
    ensures FieldsOf(SCHEMA, EnabledBytes(enabled), pos) == if enabled then [NumberField(3, 1)] else []
  {
    hide ReadField;
    if enabled {
      ReadTrue(SCHEMA, 0x18, pos);
      FieldsOfFirst(SCHEMA, TrueBytes(0x18), [], pos, NumberField(3, 1));
      assert TrueBytes(0x18) + [] == TrueBytes(0x18);
    }
  }
}
