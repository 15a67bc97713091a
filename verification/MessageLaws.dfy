/** What the nested codecs promise: round trips, and merging of repeated `params` fields. */
module MessageLaws {
  import opened Bits
  import opened Varint
  import opened Grammar
  import opened Fields
  import opened FieldLaws
  import opened Buffer
  import opened AmountText
  import opened Messages
  import P = ParamsCodec
  import L = ParamsLaws
  import Q = PulsarLaws

  /** A field that carries a whole nested message, at the head of a buffer. */
  lemma ReadsNested(m: MsgValue, payload: seq<byte>, rest: seq<byte>, pos: nat)
    requires pos + |DelimitedBytes(0x12, payload) + rest| <= MAX_INT
    requires |payload| <= MAX_INT && P.Decoding(m.params, payload, 0).Done?
    ensures MsgDecoding(m, DelimitedBytes(0x12, payload) + rest, pos)
         == MsgDecoding(m.(params := P.Decoding(m.params, payload, 0).msg), rest,
                        pos + |DelimitedBytes(0x12, payload)|)
  {
    hide ReadField, DelimitedBytes, P.Decoding;
    ReadDelimited(MSG_SCHEMA, 0x12, payload, pos);
    DecodeFirst(MSG_SCHEMA, ApplyMsg, m, DelimitedBytes(0x12, payload), rest, pos, DelimitedField(2, payload));
  }

  lemma ReadsAuthority(m: MsgValue, authority: seq<byte>, rest: seq<byte>, pos: nat)
    requires pos + |AuthorityBytes(authority) + rest| <= MAX_INT
    ensures MsgDecoding(m, AuthorityBytes(authority) + rest, pos)
         == MsgDecoding(if authority == [] then m else m.(authority := authority), rest, pos + |AuthorityBytes(authority)|)
  {
    hide ReadField, DelimitedBytes;
    if authority == [] {
      assert AuthorityBytes(authority) + rest == rest;
    } else {
      PayloadFits(0xa, authority);
      ReadDelimited(MSG_SCHEMA, 0xa, authority, pos);
      DecodeFirst(MSG_SCHEMA, ApplyMsg, m, AuthorityBytes(authority), rest, pos, DelimitedField(1, authority));
    }
  }

  /** Reading a written message into any receiver merges it there. */
  lemma MsgUnmarshalMarshal(q: MsgValue, m: MsgValue, pos: nat)
    requires pos + |MsgEncoding(m)| <= MAX_INT
    ensures MsgDecoding(q, MsgEncoding(m), pos)
         == Done(MsgValue(if m.authority == [] then q.authority else m.authority, L.Overlay(q.params, m.params)))
  {
    hide MsgDecoding, P.Encoding, P.Decoding, DelimitedBytes, AuthorityBytes;
    var inner := P.Encoding(m.params);
    var tail := DelimitedBytes(0x12, inner);
    PayloadFits(0x12, inner);
    L.UnmarshalMarshal(q.params, m.params, 0);
    ReadsAuthority(q, m.authority, tail, pos);
    var q' := if m.authority == [] then q else q.(authority := m.authority);
    assert tail + [] == tail;
    ReadsNested(q', inner, [], pos + |AuthorityBytes(m.authority)|);
    EmptyMsg(q'.(params := L.Overlay(q.params, m.params)), pos + |AuthorityBytes(m.authority)| + |tail|);
  }

  lemma EmptyMsg(m: MsgValue, pos: nat)
    requires pos <= MAX_INT
    ensures MsgDecoding(m, [], pos) == Done(m)
  {
  }

  /** Into a zero message: the message itself, except that an unset amount has become zero. */
  lemma MsgRoundTrip(m: MsgValue)
    requires |MsgEncoding(m)| <= MAX_INT
    ensures MsgDecoding(EMPTY_MSG, MsgEncoding(m), 0) == Done(m.(params := P.Settled(m.params)))
    ensures MsgDecoding(EMPTY_MSG, MsgEncoding(m), 0) == Done(m) <==> m.params.amount.Set?
  {
    hide MsgDecoding, MsgEncoding;
    MsgUnmarshalMarshal(EMPTY_MSG, m, 0);
  }

  /** Reading a written genesis state into any receiver merges it there. */
  lemma GenesisUnmarshalMarshal(q: GenesisValue, g: GenesisValue, pos: nat)
    requires pos + |GenesisEncoding(g)| <= MAX_INT
    ensures GenesisDecoding(q, GenesisEncoding(g), pos) == Done(GenesisValue(L.Overlay(q.params, g.params)))
  {
    hide ReadField, DelimitedBytes, P.Encoding, P.Decoding;
    var inner := P.Encoding(g.params);
    PayloadFits(0xa, inner);
    L.UnmarshalMarshal(q.params, g.params, 0);
    LoneGenesis(q, inner, pos);
  }

  /** A lone `params` field of a genesis state, failing or not. */
  lemma LoneGenesis(g: GenesisValue, payload: seq<byte>, pos: nat)
    requires pos + |DelimitedBytes(0xa, payload)| <= MAX_INT
    requires |payload| <= MAX_INT
    ensures GenesisDecoding(g, DelimitedBytes(0xa, payload), pos) == ApplyGenesis(g, DelimitedField(1, payload))
  {
    hide ReadField, P.Decoding, DelimitedBytes;
    var s := DelimitedBytes(0xa, payload);
    ReadDelimited(GENESIS_SCHEMA, 0xa, payload, pos);
    DecodeHead(GENESIS_SCHEMA, ApplyGenesis, g, s, [], pos, DelimitedField(1, payload));
    assert s + [] == s;
    var r := ApplyGenesis(g, DelimitedField(1, payload));
    DecodeEmpty(GENESIS_SCHEMA, ApplyGenesis, r.msg, pos + |s|);
  }

  lemma GenesisRoundTrip(g: GenesisValue)
    requires |GenesisEncoding(g)| <= MAX_INT
    ensures GenesisDecoding(EMPTY_GENESIS, GenesisEncoding(g), 0) == Done(GenesisValue(P.Settled(g.params)))
    ensures GenesisDecoding(EMPTY_GENESIS, GenesisEncoding(g), 0) == Done(g) <==> g.params.amount.Set?
  {
    hide GenesisEncoding, GenesisDecoding;
    GenesisUnmarshalMarshal(EMPTY_GENESIS, g, 0);
  }

  /** Last one wins, one level up. */
  lemma MsgConcatenation(m: MsgValue, a: seq<byte>, b: seq<byte>)
    requires |a + b| <= MAX_INT
    requires MsgDecoding(m, a, 0).Done?
    ensures MsgDecoding(m, a + b, 0) == MsgDecoding(MsgDecoding(m, a, 0).msg, b, |a|)
    ensures SameOutcome(MsgDecoding(m, a + b, 0), MsgDecoding(MsgDecoding(m, a, 0).msg, b, 0))
    ensures MsgDecoding(m, a + b, 0) == MsgDecoding(MsgDecoding(m, a, 0).msg, b, 0)
       <==> ReportsAlike(MSG_SCHEMA, ApplyMsg, MsgDecoding(m, a, 0).msg, b, |a|)
  {
    hide Decode, ReportsAlike;
    JoinedExactlyWhen(MSG_SCHEMA, ApplyMsg, m, a, b);
  }

  lemma GenesisConcatenation(g: GenesisValue, a: seq<byte>, b: seq<byte>)
    requires |a + b| <= MAX_INT
    requires GenesisDecoding(g, a, 0).Done?
    ensures GenesisDecoding(g, a + b, 0) == GenesisDecoding(GenesisDecoding(g, a, 0).msg, b, |a|)
    ensures SameOutcome(GenesisDecoding(g, a + b, 0), GenesisDecoding(GenesisDecoding(g, a, 0).msg, b, 0))
    ensures GenesisDecoding(g, a + b, 0) == GenesisDecoding(GenesisDecoding(g, a, 0).msg, b, 0)
       <==> ReportsAlike(GENESIS_SCHEMA, ApplyGenesis, GenesisDecoding(g, a, 0).msg, b, |a|)
  {
    hide Decode, ReportsAlike;
    JoinedExactlyWhen(GENESIS_SCHEMA, ApplyGenesis, g, a, b);
  }

  /** A lone `params` field, failing or not. */
  lemma LoneNested(m: MsgValue, payload: seq<byte>, pos: nat)
    requires pos + |DelimitedBytes(0x12, payload)| <= MAX_INT
    requires |payload| <= MAX_INT
    ensures MsgDecoding(m, DelimitedBytes(0x12, payload), pos) == ApplyMsg(m, DelimitedField(2, payload))
  {
    hide ReadField, P.Decoding, DelimitedBytes;
    var s := DelimitedBytes(0x12, payload);
    ReadDelimited(MSG_SCHEMA, 0x12, payload, pos);
    PayloadFits(0x12, payload);
    var r := ApplyMsg(m, DelimitedField(2, payload));
    if r.Done? {
      DecodeFirst(MSG_SCHEMA, ApplyMsg, m, s, [], pos, DelimitedField(2, payload));
      assert s + [] == s;
      EmptyMsg(r.msg, pos + |s|);
    }
  }

  /** Two `params` fields in a row act as one whose payload is the two payloads joined. */
  lemma RepeatedParamsMerge(m: MsgValue, a: seq<byte>, b: seq<byte>)
    requires |DelimitedBytes(0x12, a) + DelimitedBytes(0x12, b)| <= MAX_INT
    requires |DelimitedBytes(0x12, a + b)| <= MAX_INT && |a + b| <= MAX_INT
    requires P.Decoding(m.params, a, 0).Done?
    ensures SameOutcome(MsgDecoding(m, DelimitedBytes(0x12, a) + DelimitedBytes(0x12, b), 0),
                        MsgDecoding(m, DelimitedBytes(0x12, a + b), 0))
    ensures MsgDecoding(m, DelimitedBytes(0x12, a) + DelimitedBytes(0x12, b), 0) == MsgDecoding(m, DelimitedBytes(0x12, a + b), 0)
       <==> ReportsAlike(P.SCHEMA, P.Apply, P.Decoding(m.params, a, 0).msg, b, |a|)
  {
    hide MsgDecoding, P.Decoding, DelimitedBytes, ReportsAlike;
    ReadsNested(m, a, DelimitedBytes(0x12, b), 0);
    var m' := m.(params := P.Decoding(m.params, a, 0).msg);
    LoneNested(m', b, |DelimitedBytes(0x12, a)|);
    LoneNested(m, a + b, 0);
    L.Concatenation(m.params, a, b);
  }

  /** The same for a genesis state. */
  lemma GenesisRepeatedParamsMerge(g: GenesisValue, a: seq<byte>, b: seq<byte>)
    requires |DelimitedBytes(0xa, a) + DelimitedBytes(0xa, b)| <= MAX_INT
    requires |DelimitedBytes(0xa, a + b)| <= MAX_INT && |a + b| <= MAX_INT
    requires P.Decoding(g.params, a, 0).Done?
    ensures SameOutcome(GenesisDecoding(g, DelimitedBytes(0xa, a) + DelimitedBytes(0xa, b), 0),
                        GenesisDecoding(g, DelimitedBytes(0xa, a + b), 0))
    ensures GenesisDecoding(g, DelimitedBytes(0xa, a) + DelimitedBytes(0xa, b), 0) == GenesisDecoding(g, DelimitedBytes(0xa, a + b), 0)
       <==> ReportsAlike(P.SCHEMA, P.Apply, P.Decoding(g.params, a, 0).msg, b, |a|)
  {
    hide P.Decoding, DelimitedBytes, ReportsAlike, ReadField, Decode;
    var g' := GenesisValue(P.Decoding(g.params, a, 0).msg);
    ReadDelimited(GENESIS_SCHEMA, 0xa, a, 0);
    DecodeHead(GENESIS_SCHEMA, ApplyGenesis, g, DelimitedBytes(0xa, a), DelimitedBytes(0xa, b), 0, DelimitedField(1, a));
    LoneGenesis(g', b, |DelimitedBytes(0xa, a)|);
    LoneGenesis(g, a + b, 0);
    L.Concatenation(g.params, a, b);
  }

  // ------------------------------------------------------- fields on the wire

  /** Field 1 of `MsgUpdateParams`, however written, replaces the authority. */
  lemma AuthorityFieldSets(m: MsgValue, t: seq<byte>, l: seq<byte>, payload: seq<byte>, rest: seq<byte>, pos: nat)
    requires TagOf(t, 1, 2) && IsVarint(l) && Read(l).value.value == |payload|
    requires pos + |t + l + payload + rest| <= MAX_INT
    ensures MsgDecoding(m, t + l + payload + rest, pos)
         == MsgDecoding(m.(authority := payload), rest, pos + |t + l + payload|)
  {
    hide ReadField, TagOf, IsVarint;
    DelimitedReads(MSG_SCHEMA, t, l, payload, pos, 1);
    DecodeHead(MSG_SCHEMA, ApplyMsg, m, t + l + payload, rest, pos, DelimitedField(1, payload));
  }

  /** Field 2 merges into the record the message holds, which keeps what a failure left. */
  lemma ParamsFieldMerges(m: MsgValue, t: seq<byte>, l: seq<byte>, payload: seq<byte>, rest: seq<byte>, pos: nat)
    requires TagOf(t, 2, 2) && IsVarint(l) && Read(l).value.value == |payload|
    requires pos + |t + l + payload + rest| <= MAX_INT && |payload| <= MAX_INT
    ensures MsgDecoding(m, t + l + payload + rest, pos)
         == match P.Decoding(m.params, payload, 0)
            case Failed(p, e) => Failed(m.(params := p), e)
            case Done(p) => MsgDecoding(m.(params := p), rest, pos + |t + l + payload|)
  {
    hide ReadField, TagOf, IsVarint, P.Decoding;
    DelimitedReads(MSG_SCHEMA, t, l, payload, pos, 2);
    DecodeHead(MSG_SCHEMA, ApplyMsg, m, t + l + payload, rest, pos, DelimitedField(2, payload));
  }

  /** A whole record of any other field leaves the message alone. */
  lemma StrangeFieldIgnored(m: MsgValue, r: seq<byte>, rest: seq<byte>, pos: nat)
    requires StrangeRecord(r, {1, 2})
    requires pos + |r + rest| <= MAX_INT
    ensures MsgDecoding(m, r + rest, pos) == MsgDecoding(m, rest, pos + |r|)
  {
    hide ReadField, StrangeRecord;
    assert MSG_SCHEMA.Keys == {1, 2};
    StrangeReads(MSG_SCHEMA, r, pos);
    DecodeHead(MSG_SCHEMA, ApplyMsg, m, r, rest, pos, UnknownField(r));
  }

  /** Field 1 of a genesis state merges into the record it holds. */
  lemma GenesisFieldMerges(g: GenesisValue, t: seq<byte>, l: seq<byte>, payload: seq<byte>, rest: seq<byte>, pos: nat)
    requires TagOf(t, 1, 2) && IsVarint(l) && Read(l).value.value == |payload|
    requires pos + |t + l + payload + rest| <= MAX_INT && |payload| <= MAX_INT
    ensures GenesisDecoding(g, t + l + payload + rest, pos)
         == match P.Decoding(g.params, payload, 0)
            case Failed(p, e) => Failed(GenesisValue(p), e)
            case Done(p) => GenesisDecoding(GenesisValue(p), rest, pos + |t + l + payload|)
  {
    hide ReadField, TagOf, IsVarint, P.Decoding;
    DelimitedReads(GENESIS_SCHEMA, t, l, payload, pos, 1);
    DecodeHead(GENESIS_SCHEMA, ApplyGenesis, g, t + l + payload, rest, pos, DelimitedField(1, payload));
  }

  lemma GenesisStrangeFieldIgnored(g: GenesisValue, r: seq<byte>, rest: seq<byte>, pos: nat)
    requires StrangeRecord(r, {1})
    requires pos + |r + rest| <= MAX_INT
    ensures GenesisDecoding(g, r + rest, pos) == GenesisDecoding(g, rest, pos + |r|)
  {
    hide ReadField, StrangeRecord;
    assert GENESIS_SCHEMA.Keys == {1};
    StrangeReads(GENESIS_SCHEMA, r, pos);
    DecodeHead(GENESIS_SCHEMA, ApplyGenesis, g, r, rest, pos, UnknownField(r));
  }

  /** The fields a message is written as: the authority if there is one, then the record. */
  lemma MsgEncodedFields(m: MsgValue)
    requires |MsgEncoding(m)| <= MAX_INT
    ensures |P.Encoding(m.params)| <= MAX_INT
    ensures |m.authority| <= MAX_INT
    ensures FieldsOf(MSG_SCHEMA, MsgEncoding(m), 0)
         == (if m.authority == [] then [] else [DelimitedField(1, m.authority)])
          + [DelimitedField(2, P.Encoding(m.params))]
  {
    hide ReadField, DelimitedBytes, P.Encoding, FieldsOf;
    var inner := P.Encoding(m.params);
    var a, d := AuthorityBytes(m.authority), DelimitedBytes(0x12, inner);
    PayloadFits(0x12, inner);
    PayloadFits(0xa, m.authority);
    ReadDelimited(MSG_SCHEMA, 0x12, inner, |a|);
    FieldsOfFirst(MSG_SCHEMA, d, [], |a|, DelimitedField(2, inner));
    NoFieldsLeft(MSG_SCHEMA, |a| + |d|);
    assert d + [] == d;
    if m.authority == [] {
      assert a + d == d;
    } else {
      ReadDelimited(MSG_SCHEMA, 0xa, m.authority, 0);
      FieldsOfFirst(MSG_SCHEMA, a, d, 0, DelimitedField(1, m.authority));
    }
  }

  lemma GenesisEncodedFields(g: GenesisValue)
    requires |GenesisEncoding(g)| <= MAX_INT
    ensures |P.Encoding(g.params)| <= MAX_INT
    ensures FieldsOf(GENESIS_SCHEMA, GenesisEncoding(g), 0) == [DelimitedField(1, P.Encoding(g.params))]
  {
    hide ReadField, DelimitedBytes, P.Encoding, FieldsOf;
    var inner := P.Encoding(g.params);
    var d := DelimitedBytes(0xa, inner);
    PayloadFits(0xa, inner);
    ReadDelimited(GENESIS_SCHEMA, 0xa, inner, 0);
    FieldsOfFirst(GENESIS_SCHEMA, d, [], 0, DelimitedField(1, inner));
    NoFieldsLeft(GENESIS_SCHEMA, |d|);
    assert d + [] == d;
  }

  lemma NoFieldsLeft(schema: Schema, pos: nat)
    requires pos <= MAX_INT
    ensures FieldsOf(schema, [], pos) == []
  {
  }

  /** One message and one genesis state, byte by byte. */
  lemma EncodingExamples()
    ensures MsgEncoding(MsgValue([97], P.ParamsValue([], Set(5), false))) == [0xa, 1, 97, 0x12, 3, 0x12, 1, 53]
    ensures GenesisEncoding(GenesisValue(P.ParamsValue([], Set(5), true))) == [0xa, 5, 0x12, 1, 53, 0x18, 1]
  {
    hide Print;
    FiveIsPrinted();
    assert DelimitedBytes(0x12, [53]) == [0x12, 1, 53];
    assert P.Encoding(P.ParamsValue([], Set(5), false)) == [0x12, 1, 53];
    assert P.Encoding(P.ParamsValue([], Set(5), true)) == [0x12, 1, 53, 0x18, 1];
    assert DelimitedBytes(0xa, [97]) == [0xa, 1, 97];
  }

  lemma FiveIsPrinted()
    ensures Print(Set(5)) == [53]
  {
  }

  // --------------------------------------------------------------- language

  /** The bytes of a nested record that is accepted, whatever record it is merged into. */
  ghost predicate AcceptableParams(payload: Slice) {
    Records(P.SCHEMA, payload) && Q.Readable(Q.AmountTexts(payload, 0))
  }

  /** A field of `MsgUpdateParams`: the only delimited one but the authority is the nested record. */
  ghost predicate GoodMsgField(f: Field) {
    f.DelimitedField? && f.num != 1 ==> AcceptableParams(f.payload)
  }

  ghost predicate GoodGenesisField(f: Field) {
    f.DelimitedField? ==> AcceptableParams(f.payload)
  }

  lemma NestedAccepts(p: P.ParamsValue, payload: Slice)
    ensures Nested(p, payload).Done? <==> AcceptableParams(payload)
  {
    hide P.Decoding, Records, Q.Readable, Q.AmountTexts;
    Q.ParamsAccepts(p, payload);
  }

  /** What `MsgUpdateParams` accepts: whole records, each nested one acceptable by itself. */
  lemma MsgAccepts(m: MsgValue, s: seq<byte>)
    requires |s| <= MAX_INT
    ensures MsgDecoding(m, s, 0).Done?
       <==> Records(MSG_SCHEMA, s) && AllGood(f => GoodMsgField(f), FieldsOf(MSG_SCHEMA, s, 0))
  {
    hide Records, FieldsOf, Decode, AllGood, AcceptableParams, Nested;
    forall m: MsgValue, f: Field
      ensures ApplyMsg(m, f).Done? <==> GoodMsgField(f)
    {
      if f.DelimitedField? && f.num != 1 {
        NestedAccepts(m.params, f.payload);
      }
    }
    AcceptsExactly(MSG_SCHEMA, ApplyMsg, f => GoodMsgField(f), m, s, 0);
  }

  /** The same for `GenesisState`. */
  lemma GenesisAccepts(g: GenesisValue, s: seq<byte>)
    requires |s| <= MAX_INT
    ensures GenesisDecoding(g, s, 0).Done?
       <==> Records(GENESIS_SCHEMA, s) && AllGood(f => GoodGenesisField(f), FieldsOf(GENESIS_SCHEMA, s, 0))
  {
    hide Records, FieldsOf, Decode, AllGood, AcceptableParams, Nested;
    forall g: GenesisValue, f: Field
      ensures ApplyGenesis(g, f).Done? <==> GoodGenesisField(f)
    {
      if f.DelimitedField? {
        NestedAccepts(g.params, f.payload);
      }
    }
    AcceptsExactly(GENESIS_SCHEMA, ApplyGenesis, f => GoodGenesisField(f), g, s, 0);
  }
}
