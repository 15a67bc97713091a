/**
 The second codec of the same message (api/bluechipchain/fixedmint/params.pulsar.go):
 the amount stays text, and fields it does not know are kept.  The helpers it takes
 from the pulsar runtime are read as the ones the first codec spells out.
 */
module PulsarCodec {
  import opened Bits
  import opened Wire
  import opened Varint
  import opened Fields
  import opened FieldLaws
  import opened Buffer
  import P = ParamsCodec

  datatype PulsarValue = PulsarValue(denom: seq<byte>, amount: seq<byte>, enabled: bool, unknown: seq<byte>)

  const EMPTY: PulsarValue := PulsarValue([], [], false, [])

  function ApplyKeeping(p: PulsarValue, f: Field): Outcome<PulsarValue> {
    match f
    case DelimitedField(num, payload) =>
      Done(if num == 1 then p.(denom := payload) else p.(amount := payload))
    case NumberField(_, v) => Done(p.(enabled := v != 0))
    case UnknownField(raw) => Done(p.(unknown := p.unknown + raw))
  }

  function ApplyDiscarding(p: PulsarValue, f: Field): Outcome<PulsarValue> {
    if f.UnknownField? then Done(p) else ApplyKeeping(p, f)
  }

  /** What a field does, under the `DiscardUnknown` option or without it. */
  function Apply(discard: bool): (PulsarValue, Field) -> Outcome<PulsarValue> {
    if discard then ApplyDiscarding else ApplyKeeping
  }

  function Decoding(discard: bool, p: PulsarValue, s: seq<byte>, pos: nat): Outcome<PulsarValue>
    requires pos + |s| <= MAX_INT
  {
    Decode(P.SCHEMA, Apply(discard), p, s, pos)
  }

  function AmountBytes(amount: seq<byte>): seq<byte> {
    if amount == [] then [] else DelimitedBytes(0x12, amount)
  }

  /** Known fields in ascending order, then the unknown ones. */
  function Encoding(p: PulsarValue): seq<byte> {
    P.DenomBytes(p.denom) + AmountBytes(p.amount) + P.EnabledBytes(p.enabled) + p.unknown
  }

  class Params {
    var MintDenom: seq<byte>
    var MintAmount: seq<byte>
    var MintEnabled: bool
    var unknownFields: seq<byte>

    constructor ()
      ensures Value() == EMPTY
    {
      MintDenom, MintAmount, MintEnabled, unknownFields := [], [], false, [];
    }

    function Value(): PulsarValue
      reads this
    {
      PulsarValue(MintDenom, MintAmount, MintEnabled, unknownFields)
    }

    method Size() returns (n: nat)
      ensures n == |Encoding(Value())|
    {
      n := 0;
      var l := |MintDenom|;
      if l > 0 {
        n := n + 1 + l + Sov(l);
        DelimitedSize(0xa, MintDenom);
      }
      l := |MintAmount|;
      if l > 0 {
        n := n + 1 + l + Sov(l);
        DelimitedSize(0x12, MintAmount);
      }
      if MintEnabled {
        n := n + 2;
      }
      n := n + |unknownFields|;
    }

    /** The closure `marshal`: appends to the caller's buffer. */
    method Marshal(buf: seq<byte>) returns (out: seq<byte>)
      requires |Encoding(Value())| <= MAX_INT
      ensures out == buf + Encoding(Value())
    {
      hide DelimitedBytes;
      PayloadFits(0xa, MintDenom);
      PayloadFits(0x12, MintAmount);
      var size := Size();
      var dAtA := new byte[size](i => 0);
      var i := size;
      i := PutBytes(dAtA, i, unknownFields);
      if MintEnabled {
        i := PutTrue(dAtA, i, 0x18);
      }
      assert dAtA[i..] == P.EnabledBytes(MintEnabled) + unknownFields;
      if |MintAmount| > 0 {
        i := PutDelimited(dAtA, i, 0x12, MintAmount);
      }
      assert dAtA[i..] == AmountBytes(MintAmount) + (P.EnabledBytes(MintEnabled) + unknownFields);
      if |MintDenom| > 0 {
        i := PutDelimited(dAtA, i, 0xa, MintDenom);
      }
      Regroup(P.DenomBytes(MintDenom), AmountBytes(MintAmount), P.EnabledBytes(MintEnabled), unknownFields);
      assert dAtA[i..] == Encoding(Value());
      assert i == 0;
      out := buf + dAtA[..];
    }

    /** The closure `unmarshal`. */
    method Unmarshal(dAtA: seq<byte>, discardUnknown: bool) returns (err: Option<Error>)
      requires |dAtA| <= MAX_INT
      modifies this
      ensures P.Ended(Value(), err) == Decoding(discardUnknown, old(Value()), dAtA, 0)
    {
      hide ReadField;
      var l := |dAtA|;
      var iNdEx := 0;
      assert dAtA[0..] == dAtA;
      while iNdEx < l
        invariant 0 <= iNdEx <= l
        invariant Decoding(discardUnknown, old(Value()), dAtA, 0) == Decoding(discardUnknown, Value(), dAtA[iNdEx..], iNdEx)
        decreases l - iNdEx
      {
        ghost var before := Value();
        var next := NextField(P.SCHEMA, dAtA, iNdEx);
        if next.Err? {
          return Some(next.error);
        }
        match next.value.field {
          case DelimitedField(num, payload) =>
            if num == 1 {
              MintDenom := payload;
            } else {
              MintAmount := payload;
            }
          case NumberField(_, v) =>
            MintEnabled := v != 0;
          case UnknownField(raw) =>
            if !discardUnknown {
              unknownFields := unknownFields + raw;
            }
        }
        assert Apply(discardUnknown)(before, next.value.field) == Done(Value());
        DecodeStep(P.SCHEMA, Apply(discardUnknown), before, dAtA, iNdEx);
        iNdEx := iNdEx + next.value.size;
      }
      return None;
    }
  }
}
