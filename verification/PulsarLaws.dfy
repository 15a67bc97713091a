/** What the pulsar codec keeps of fields it does not know, and how the two codecs agree. */
module PulsarLaws {
  import opened Bits
  import opened Varint
  import opened Skipper
  import opened Grammar
  import opened Fields
  import opened FieldLaws
  import opened Buffer
  import opened AmountText
  import opened PulsarCodec
  import P = ParamsCodec
  import L = ParamsLaws

  // ------------------------------------------------------------ unknown fields

  /** A sequence of whole records, none of a field the message knows. */
  ghost predicate UnknownRecords(u: seq<byte>)
    decreases |u|
  {
    u == []
    || (&& ReadTag(u).Ok?
        && ReadTag(u).value.num !in P.SCHEMA
        && exists n :: 1 <= n <= |u| && IsRecord(u[..n]) && UnknownRecords(u[n..]))
  }

  lemma {:induction false} UnknownRecordsAppend(u: seq<byte>, v: seq<byte>)
    requires UnknownRecords(u) && UnknownRecords(v)
    ensures UnknownRecords(u + v)
    decreases |u|
  {
    hide ReadTag, IsRecord;
    if u == [] {
      assert u + v == v;
    } else {
      var n :| 1 <= n <= |u| && IsRecord(u[..n]) && UnknownRecords(u[n..]);
      UnknownRecordsAppend(u[n..], v);
      TagLocal(u, v);
      assert (u + v)[..n] == u[..n];
      assert (u + v)[n..] == u[n..] + v;
    }
  }

  /** What the default branch appends is one whole unknown record. */
  lemma UnknownFieldIsRecord(s: seq<byte>, pos: nat)
    requires pos + |s| <= MAX_INT
    requires ReadField(P.SCHEMA, s, pos).Ok? && ReadField(P.SCHEMA, s, pos).value.field.UnknownField?
    ensures UnknownRecords(ReadField(P.SCHEMA, s, pos).value.field.raw)
    ensures ReadField(P.SCHEMA, s, pos).value.field.raw == s[..ReadField(P.SCHEMA, s, pos).value.size]
  {
    hide Read, ReadSpan, ReadUnknown, IsRecord;
    var n := ReadField(P.SCHEMA, s, pos).value.size;
    FieldIsRecord(P.SCHEMA, s, pos);
    TagOfPrefix(s, pos);
    assert s[..n][..n] == s[..n];
    assert s[..n][n..] == [];
  }

  /** The tag of an unknown record is within the record. */
  lemma TagOfPrefix(s: seq<byte>, pos: nat)
    requires pos + |s| <= MAX_INT
    requires ReadField(P.SCHEMA, s, pos).Ok?
    ensures ReadTag(s[..ReadField(P.SCHEMA, s, pos).value.size]) == ReadTag(s)
  {
    hide Extent, Digits, ReadSpan, ReadUnknown;
    var n := ReadField(P.SCHEMA, s, pos).value.size;
    var k := Read(s).value.size;
    FieldIsRecord(P.SCHEMA, s, pos);
    RecordCoversTag(s, n);
    ReadIsVarint(s);
    assert s[..n] == s[..k] + s[k..n];
    ReadLocal(s[..k], s[k..n]);
  }

  lemma RecordCoversTag(s: seq<byte>, n: nat)
    requires n <= |s| <= MAX_INT && IsRecord(s[..n]) && Read(s).Ok?
    ensures Read(s).value.size <= n
  {
    hide Extent, Digits, IsRecord, IsPayload, ReadToken, Skip;
    SkipRecognisesRecords(s, n);
    SkipIsSkipFrom(s);
    var k, m, wireType := SkipUnstep(s, 0, 0);
    assert s == s[..k] + s[k..];
    ReadOfPrefixed(s[..k], s[k..]);
  }

  /** `unknownFields` stays a sequence of whole unknown records, whether or not decoding succeeds. */
  lemma {:induction false} UnknownFieldsStayRecords(discard: bool, p: PulsarValue, s: seq<byte>, pos: nat)
    requires pos + |s| <= MAX_INT
    requires UnknownRecords(p.unknown)
    ensures UnknownRecords(Decoding(discard, p, s, pos).msg.unknown)
    decreases |s|
  {
    hide ReadField, UnknownRecords;
    if s != [] && ReadField(P.SCHEMA, s, pos).Ok? {
      var Parsed(f, n) := ReadField(P.SCHEMA, s, pos).value;
      if f.UnknownField? {
        UnknownFieldIsRecord(s, pos);
        UnknownRecordsAppend(p.unknown, f.raw);
      }
      UnknownFieldsStayRecords(discard, Apply(discard)(p, f).msg, s[n..], pos + n);
    }
  }

  /** The records of s that the message does not know, in arrival order. */
  function UnknownsOf(s: seq<byte>, pos: nat): seq<byte>
    requires pos + |s| <= MAX_INT
    decreases |s|
  {
    if s == [] then []
    else
      match ReadField(P.SCHEMA, s, pos)
      case Err(_) => []
      case Ok(Parsed(f, n)) =>
        (if f.UnknownField? then s[..n] else []) + UnknownsOf(s[n..], pos + n)
  }

  /** Exactly those records are appended, in that order. */
  lemma {:induction false} UnknownsAppended(p: PulsarValue, s: seq<byte>, pos: nat)
    requires pos + |s| <= MAX_INT
    ensures Decoding(false, p, s, pos).msg.unknown == p.unknown + UnknownsOf(s, pos)
    decreases |s|
  {
    hide ReadField, UnknownRecords;
    if s != [] && ReadField(P.SCHEMA, s, pos).Ok? {
      var Parsed(f, n) := ReadField(P.SCHEMA, s, pos).value;
      var kept := if f.UnknownField? then s[..n] else [];
      if f.UnknownField? {
        UnknownFieldIsRecord(s, pos);
      }
      assert ApplyKeeping(p, f).msg.unknown == p.unknown + kept;
      var rest := UnknownsOf(s[n..], pos + n);
      assert UnknownsOf(s, pos) == kept + rest;
      UnknownsAppended(ApplyKeeping(p, f).msg, s[n..], pos + n);
      Assoc(p.unknown, kept, rest);
    }
  }

  /** Discarding changes nothing but `unknownFields`. */
  lemma {:induction false} DiscardOnlyDropsUnknown(p: PulsarValue, q: PulsarValue, s: seq<byte>, pos: nat)
    requires pos + |s| <= MAX_INT
    requires q == p.(unknown := q.unknown)
    ensures Decoding(true, q, s, pos).Done? <==> Decoding(false, p, s, pos).Done?
    ensures Decoding(true, q, s, pos).msg == Decoding(false, p, s, pos).msg.(unknown := q.unknown)
    decreases |s|
  {
    hide ReadField;
    if s != [] && ReadField(P.SCHEMA, s, pos).Ok? {
      var Parsed(f, n) := ReadField(P.SCHEMA, s, pos).value;
      DiscardOnlyDropsUnknown(ApplyKeeping(p, f).msg, ApplyDiscarding(q, f).msg, s[n..], pos + n);
    }
  }

  // --------------------------------------------------------------- round trip

  lemma {:induction false} ReadsUnknown(q: PulsarValue, u: seq<byte>, pos: nat)
    requires pos + |u| <= MAX_INT
    requires UnknownRecords(u)
    ensures Decoding(false, q, u, pos) == Done(q.(unknown := q.unknown + u))
    decreases |u|
  {
    hide ReadField, ReadTag, IsRecord;
    if u == [] {
      assert q.unknown + u == q.unknown;
    } else {
      var n :| 1 <= n <= |u| && IsRecord(u[..n]) && UnknownRecords(u[n..]);
      RecordIsUnknownField(P.SCHEMA, u, n, pos);
      ReadsUnknown(q.(unknown := q.unknown + u[..n]), u[n..], pos + n);
      assert q.unknown + u[..n] + u[n..] == q.unknown + u;
    }
  }

  lemma ReadsText(q: PulsarValue, tag: byte, text: seq<byte>, rest: seq<byte>, pos: nat)
    requires tag == 0xa || tag == 0x12
    requires pos + |DelimitedBytes(tag, text) + rest| <= MAX_INT
    ensures Decoding(false, q, DelimitedBytes(tag, text) + rest, pos)
         == Decoding(false, if tag == 0xa then q.(denom := text) else q.(amount := text), rest,
                     pos + |DelimitedBytes(tag, text)|)
  {
    hide DelimitedBytes, ReadField;
    PayloadFits(tag, text);
    ReadDelimited(P.SCHEMA, tag, text, pos);
    DecodeFirst(P.SCHEMA, ApplyKeeping, q, DelimitedBytes(tag, text), rest, pos, DelimitedField(tag / 8, text));
  }

  lemma ReadsFlag(q: PulsarValue, enabled: bool, rest: seq<byte>, pos: nat)
    requires pos + |P.EnabledBytes(enabled) + rest| <= MAX_INT
    ensures Decoding(false, q, P.EnabledBytes(enabled) + rest, pos)
         == Decoding(false, q.(enabled := enabled || q.enabled), rest, pos + |P.EnabledBytes(enabled)|)
  {
    hide ReadField;
    if enabled {
      ReadTrue(P.SCHEMA, 0x18, pos);
      DecodeFirst(P.SCHEMA, ApplyKeeping, q, TrueBytes(0x18), rest, pos, NumberField(3, 1));
    } else {
      assert P.EnabledBytes(enabled) + rest == rest;
    }
  }

  /** The decoder's state when it reaches the unknown records at the end. */
  lemma ReadsKnown(p: PulsarValue)
    requires |Encoding(p)| <= MAX_INT
    ensures |p.unknown| <= |Encoding(p)|
    ensures Decoding(false, EMPTY, Encoding(p), 0)
         == Decoding(false, p.(unknown := []), p.unknown, |Encoding(p)| - |p.unknown|)
  {
    hide Decoding, DelimitedBytes, P.EnabledBytes;
    var d, a, e := P.DenomBytes(p.denom), AmountBytes(p.amount), P.EnabledBytes(p.enabled);
    assert Encoding(p) == d + (a + (e + p.unknown));
    var q := EMPTY.(denom := p.denom);
    if p.denom == [] {
      assert d + (a + (e + p.unknown)) == a + (e + p.unknown);
    } else {
      ReadsText(EMPTY, 0xa, p.denom, a + (e + p.unknown), 0);
    }
    var q' := q.(amount := p.amount);
    if p.amount == [] {
      assert a + (e + p.unknown) == e + p.unknown;
    } else {
      ReadsText(q, 0x12, p.amount, e + p.unknown, |d|);
    }
    ReadsFlag(q', p.enabled, p.unknown, |d| + |a|);
  }

  lemma {:induction false} AllBytesUnknown(s: seq<byte>, pos: nat)
    requires pos + |s| <= MAX_INT
    ensures |UnknownsOf(s, pos)| <= |s|
    ensures |UnknownsOf(s, pos)| == |s| ==> UnknownRecords(s)
    decreases |s|
  {
    hide ReadField, UnknownRecords;
    if s == [] {
      EmptyIsUnknownRecords();
    } else if ReadField(P.SCHEMA, s, pos).Ok? {
      var Parsed(f, n) := ReadField(P.SCHEMA, s, pos).value;
      AllBytesUnknown(s[n..], pos + n);
      if f.UnknownField? && |UnknownsOf(s, pos)| == |s| {
        UnknownFieldIsRecord(s, pos);
        UnknownRecordsAppend(s[..n], s[n..]);
        assert s[..n] + s[n..] == s;
      }
    }
  }

  lemma EmptyIsUnknownRecords()
    ensures UnknownRecords([])
  {
  }

  /** A message survives the round trip, unknown bytes included, exactly when those are whole unknown records. */
  lemma PulsarRoundTrip(p: PulsarValue)
    requires |Encoding(p)| <= MAX_INT
    ensures Decoding(false, EMPTY, Encoding(p), 0) == Done(p) <==> UnknownRecords(p.unknown)
  {
    hide Decoding, Encoding, UnknownRecords, UnknownsOf;
    ReadsKnown(p);
    var pos := |Encoding(p)| - |p.unknown|;
    assert [] + p.unknown == p.unknown;
    if UnknownRecords(p.unknown) {
      ReadsUnknown(p.(unknown := []), p.unknown, pos);
    }
    UnknownsAppended(p.(unknown := []), p.unknown, pos);
    AllBytesUnknown(p.unknown, pos);
    assert [] + UnknownsOf(p.unknown, pos) == UnknownsOf(p.unknown, pos);
  }

  // ------------------------------------------------------- the two codecs agree

  /** The same record with its amount as text. */
  function ToPulsar(p: P.ParamsValue): PulsarValue {
    PulsarValue(p.denom, Print(p.amount), p.enabled, [])
  }

  lemma EncodersAgree(p: P.ParamsValue)
    ensures P.Encoding(p) == Encoding(ToPulsar(p))
  {
    hide DelimitedBytes, Print;
  }

  /** What the two `Marshal` methods return for one record is the same bytes. */
  method MarshalBoth(a: P.Params, b: Params) returns (x: array<byte>, y: seq<byte>)
    requires P.Fits(a.Value())
    requires b.Value() == ToPulsar(a.Value())
    ensures x[..] == y
  {
    hide P.Encoding, Encoding;
    EncodersAgree(a.Value());
    x := a.Marshal();
    y := b.Marshal([]);
  }

  /** The amount records of s, in arrival order. */
  function AmountTexts(s: seq<byte>, pos: nat): seq<seq<byte>>
    requires pos + |s| <= MAX_INT
    decreases |s|
  {
    if s == [] then []
    else
      match ReadField(P.SCHEMA, s, pos)
      case Err(_) => []
      case Ok(Parsed(f, n)) =>
        (if f.DelimitedField? && f.num != 1 then [f.payload] else []) + AmountTexts(s[n..], pos + n)
  }

  predicate Readable(texts: seq<seq<byte>>) {
    forall i :: 0 <= i < |texts| ==> texts[i] == [] || ParseInt(texts[i]).Some?
  }

  /** The last text there is. */
  function LastText(start: seq<byte>, texts: seq<seq<byte>>): seq<byte> {
    if texts == [] then start else texts[|texts| - 1]
  }

  /** The number of the last text that is not empty. */
  function LastAmount(start: Amount, texts: seq<seq<byte>>): Amount
    requires Readable(texts)
  {
    if texts == [] then start
    else if texts[|texts| - 1] != [] then Set(ParseInt(texts[|texts| - 1]).value)
    else LastAmount(start, texts[..|texts| - 1])
  }

  lemma ReadableCons(t: seq<byte>, texts: seq<seq<byte>>)
    ensures Readable([t] + texts) <==> (t == [] || ParseInt(t).Some?) && Readable(texts)
  {
    hide ParseInt;
    assert ([t] + texts)[0] == t;
    forall i | 0 <= i < |texts|
      ensures ([t] + texts)[i + 1] == texts[i]
    {
    }
  }

  lemma {:induction false} LastAmountCons(start: Amount, t: seq<byte>, texts: seq<seq<byte>>)
    requires Readable([t] + texts)
    ensures t == [] || ParseInt(t).Some?
    ensures Readable(texts)
    ensures LastAmount(start, [t] + texts) == LastAmount(if t == [] then start else Set(ParseInt(t).value), texts)
    decreases |texts|
  {
    hide ParseInt;
    ReadableCons(t, texts);
    if texts == [] {
      assert [t] + texts == [t];
      assert [t][..0] == [];
    } else {
      var front := texts[..|texts| - 1];
      assert ([t] + texts)[..|texts|] == [t] + front;
      if texts[|texts| - 1] == [] {
        LastAmountCons(start, t, front);
      }
    }
  }

  /**
   The first codec, with amount texts read as plain decimal, accepts a buffer exactly
   when the second does and every amount text in it is empty or a number; they then agree
   on denom and flag, and each holds its own reading of the amounts.
   */
  lemma {:induction false} DecodersAgree(q: P.ParamsValue, x: PulsarValue, s: seq<byte>, pos: nat)
    requires pos + |s| <= MAX_INT
    requires q.denom == x.denom && q.enabled == x.enabled
    ensures P.Decoding(q, s, pos).Done?
       <==> Decoding(false, x, s, pos).Done? && Readable(AmountTexts(s, pos))
    ensures P.Decoding(q, s, pos).Done? ==>
      var g, y := P.Decoding(q, s, pos).msg, Decoding(false, x, s, pos).msg;
      && g.denom == y.denom && g.enabled == y.enabled
      && g.amount == LastAmount(q.amount, AmountTexts(s, pos))
      && y.amount == LastText(x.amount, AmountTexts(s, pos))
    decreases |s|
  {
    hide ReadField, ParseInt, Readable, LastAmount, AmountTexts;
    AmountTextsStep(s, pos);
    NoTexts(q.amount);
    if s != [] && ReadField(P.SCHEMA, s, pos).Ok? {
      var Parsed(f, n) := ReadField(P.SCHEMA, s, pos).value;
      var texts := AmountTexts(s[n..], pos + n);
      if P.Apply(q, f).Done? {
        DecodersAgree(P.Apply(q, f).msg, ApplyKeeping(x, f).msg, s[n..], pos + n);
      }
      if f.DelimitedField? && f.num != 1 {
        ReadableCons(f.payload, texts);
        if Readable([f.payload] + texts) {
          LastAmountCons(q.amount, f.payload, texts);
        }
      }
    }
  }

  lemma AmountTextsStep(s: seq<byte>, pos: nat)
    requires pos + |s| <= MAX_INT
    ensures s == [] || ReadField(P.SCHEMA, s, pos).Err? ==> AmountTexts(s, pos) == []
    ensures s != [] && ReadField(P.SCHEMA, s, pos).Ok? ==>
      var Parsed(f, n) := ReadField(P.SCHEMA, s, pos).value;
      AmountTexts(s, pos)
      == if f.DelimitedField? && f.num != 1 then [f.payload] + AmountTexts(s[n..], pos + n)
         else AmountTexts(s[n..], pos + n)
  {
    hide ReadField;
  }

  lemma NoTexts(a: Amount)
    ensures Readable([]) && LastAmount(a, []) == a
  {
  }

  /** What the second codec accepts: whole records, the known ones with their wire types. */
  lemma PulsarAccepts(discard: bool, x: PulsarValue, s: seq<byte>)
    requires |s| <= MAX_INT
    ensures Decoding(discard, x, s, 0).Done? <==> Records(P.SCHEMA, s)
  {
    hide Records;
    AcceptsExactlyRecords(P.SCHEMA, Apply(discard), x, s, 0);
  }

  /** What the first codec accepts: the same, with amount texts that are empty or plain decimal. */
  lemma ParamsAccepts(q: P.ParamsValue, s: seq<byte>)
    requires |s| <= MAX_INT
    ensures P.Decoding(q, s, 0).Done? <==> Records(P.SCHEMA, s) && Readable(AmountTexts(s, 0))
  {
    hide P.Decoding, Decoding, Records, AmountTexts, Readable;
    var x := PulsarValue(q.denom, [], q.enabled, []);
    DecodersAgree(q, x, s, 0);
    PulsarAccepts(false, x, s);
  }

  /** The text denotes the amount; no text denotes an unset one. */
  predicate Denotes(t: seq<byte>, a: Amount) {
    if t == [] then a == Unset else ParseInt(t).Some? && a == Set(ParseInt(t).value)
  }

  /** The last amount record is not empty, or none holds any text. */
  predicate NothingErased(texts: seq<seq<byte>>) {
    LastText([], texts) != [] || forall i :: 0 <= i < |texts| ==> texts[i] == []
  }

  lemma {:induction false} AllEmptyKeepsAmount(start: Amount, texts: seq<seq<byte>>)
    requires Readable(texts)
    ensures LastAmount(start, texts) == start || exists i :: 0 <= i < |texts| && texts[i] != []
    ensures start == Unset && LastAmount(start, texts) == Unset <==>
            start == Unset && forall i :: 0 <= i < |texts| ==> texts[i] == []
    decreases |texts|
  {
    hide ParseInt;
    if texts != [] {
      var front := texts[..|texts| - 1];
      assert texts == front + [texts[|texts| - 1]];
      assert Readable(front);
      AllEmptyKeepsAmount(start, front);
    }
  }

  /** The one difference: an empty amount record erases the text but leaves the number. */
  lemma AmountsAgreeExactlyWhen(s: seq<byte>)
    requires |s| <= MAX_INT
    requires P.Decoding(P.EMPTY, s, 0).Done?
    ensures Denotes(Decoding(false, EMPTY, s, 0).msg.amount, P.Decoding(P.EMPTY, s, 0).msg.amount)
       <==> NothingErased(AmountTexts(s, 0))
  {
    hide P.Decoding, Decoding, AmountTexts, ParseInt;
    DecodersAgree(P.EMPTY, EMPTY, s, 0);
    AllEmptyKeepsAmount(Unset, AmountTexts(s, 0));
  }

  /** A buffer on which the amounts part: the number 5, then an empty amount record. */
  lemma ErasedAmountExample()
    ensures var s := DelimitedBytes(0x12, [53]) + DelimitedBytes(0x12, []);
            && P.Decoding(P.EMPTY, s, 0) == Done(P.EMPTY.(amount := Set(5)))
            && Decoding(false, EMPTY, s, 0) == Done(EMPTY)
  {
    hide ReadField, P.Decoding, Decoding;
    var a, b := DelimitedBytes(0x12, [53]), DelimitedBytes(0x12, []);
    assert PrintInt(5) == [53];
    assert b == [0x12, 0] && a == [0x12, 1, 53];
    ReadsAmountText(P.EMPTY, EMPTY, [53], b, 0);
    ReadsAmountText(P.EMPTY.(amount := Set(5)), EMPTY.(amount := [53]), [], [], |a|);
    assert b + [] == b;
    NothingLeft(P.EMPTY.(amount := Set(5)), EMPTY, |a + b|);
  }

  lemma NothingLeft(q: P.ParamsValue, x: PulsarValue, pos: nat)
    requires pos <= MAX_INT
    ensures P.Decoding(q, [], pos) == Done(q) && Decoding(false, x, [], pos) == Done(x)
  {
  }

  /** An amount record, as each codec takes it. */
  lemma ReadsAmountText(q: P.ParamsValue, x: PulsarValue, text: seq<byte>, rest: seq<byte>, pos: nat)
    requires pos + |DelimitedBytes(0x12, text) + rest| <= MAX_INT
    requires Parse(q.amount, text).Ok?
    ensures P.Decoding(q, DelimitedBytes(0x12, text) + rest, pos)
         == P.Decoding(q.(amount := Parse(q.amount, text).value), rest, pos + |DelimitedBytes(0x12, text)|)
    ensures Decoding(false, x, DelimitedBytes(0x12, text) + rest, pos)
         == Decoding(false, x.(amount := text), rest, pos + |DelimitedBytes(0x12, text)|)
  {
    hide DelimitedBytes, ReadField, Parse;
    PayloadFits(0x12, text);
    ReadDelimited(P.SCHEMA, 0x12, text, pos);
    DecodeFirst(P.SCHEMA, P.Apply, q, DelimitedBytes(0x12, text), rest, pos, DelimitedField(2, text));
    DecodeFirst(P.SCHEMA, ApplyKeeping, x, DelimitedBytes(0x12, text), rest, pos, DelimitedField(2, text));
  }

  // ------------------------------------------------------- fields on the wire

  /** Fields 1 and 2, however written, replace the denomination and the amount's text. */
  lemma TextFieldSets(discard: bool, x: PulsarValue, num: int, t: seq<byte>, l: seq<byte>, payload: seq<byte>,
                      rest: seq<byte>, pos: nat)
    requires num == 1 || num == 2
    requires TagOf(t, num, 2) && IsVarint(l) && Read(l).value.value == |payload|
    requires pos + |t + l + payload + rest| <= MAX_INT
    ensures Decoding(discard, x, t + l + payload + rest, pos)
         == Decoding(discard, if num == 1 then x.(denom := payload) else x.(amount := payload), rest,
                     pos + |t + l + payload|)
  {
    hide ReadField, TagOf, IsVarint;
    DelimitedReads(P.SCHEMA, t, l, payload, pos, num);
    DecodeHead(P.SCHEMA, Apply(discard), x, t + l + payload, rest, pos, DelimitedField(num, payload));
  }

  /** Field 3 sets the flag to whether its varint is not zero, whatever the receiver held. */
  lemma FlagFieldSets(discard: bool, x: PulsarValue, t: seq<byte>, v: seq<byte>, rest: seq<byte>, pos: nat)
    requires TagOf(t, 3, 0) && IsVarint(v)
    requires pos + |t + v + rest| <= MAX_INT
    ensures Decoding(discard, x, t + v + rest, pos)
         == Decoding(discard, x.(enabled := Read(v).value.value != 0), rest, pos + |t + v|)
  {
    hide ReadField, TagOf, Extent, Digits;
    NumberReads(P.SCHEMA, t, v, pos, 3);
    DecodeHead(P.SCHEMA, Apply(discard), x, t + v, rest, pos, NumberField(3, Read(v).value.value));
  }

  /** A whole record of any other field is appended to the unknown ones, or dropped. */
  lemma StrangeFieldKept(discard: bool, x: PulsarValue, r: seq<byte>, rest: seq<byte>, pos: nat)
    requires StrangeRecord(r, {1, 2, 3})
    requires pos + |r + rest| <= MAX_INT
    ensures Decoding(discard, x, r + rest, pos)
         == Decoding(discard, if discard then x else x.(unknown := x.unknown + r), rest, pos + |r|)
  {
    hide ReadField, StrangeRecord;
    assert P.SCHEMA.Keys == {1, 2, 3};
    StrangeReads(P.SCHEMA, r, pos);
    DecodeHead(P.SCHEMA, Apply(discard), x, r, rest, pos, UnknownField(r));
  }

  /** The known fields come first and in order, an empty one not at all; the unknown bytes end the encoding. */
  lemma EncodedFields(p: PulsarValue)
    requires |Encoding(p)| <= MAX_INT
    ensures |Encoding(p.(unknown := []))| <= MAX_INT && |p.denom| <= MAX_INT && |p.amount| <= MAX_INT
    ensures FieldsOf(P.SCHEMA, Encoding(p.(unknown := [])), 0)
         == (if p.denom == [] then [] else [DelimitedField(1, p.denom)])
          + (if p.amount == [] then [] else [DelimitedField(2, p.amount)])
          + (if p.enabled then [NumberField(3, 1)] else [])
    ensures Encoding(p) == Encoding(p.(unknown := [])) + p.unknown
  {
    hide ReadField, DelimitedBytes, FieldsOf;
    var d, a, e := P.DenomBytes(p.denom), AmountBytes(p.amount), P.EnabledBytes(p.enabled);
    PayloadFits(0xa, p.denom);
    PayloadFits(0x12, p.amount);
    assert Encoding(p.(unknown := [])) == d + (a + e);
    L.EnabledFields(p.enabled, |d| + |a|);
    if p.amount == [] {
      assert a + e == e;
    } else {
      ReadDelimited(P.SCHEMA, 0x12, p.amount, |d|);
      FieldsOfFirst(P.SCHEMA, a, e, |d|, DelimitedField(2, p.amount));
    }
    if p.denom == [] {
      assert d + (a + e) == a + e;
    } else {
      ReadDelimited(P.SCHEMA, 0xa, p.denom, 0);
      FieldsOfFirst(P.SCHEMA, d, a + e, 0, DelimitedField(1, p.denom));
    }
  }

  /** The zero message writes nothing; a message with an unknown field ends with it. */
  lemma EncodingExamples()
    ensures Encoding(EMPTY) == []
    ensures Encoding(PulsarValue([97], [], true, [0x20, 7])) == [0xa, 1, 97, 0x18, 1, 0x20, 7]
  {
    assert DelimitedBytes(0xa, [97]) == [0xa, 1, 97];
  }
}
