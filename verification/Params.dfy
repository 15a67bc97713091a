/**
 The `Params` message (x/fixedmint/types/params.pb.go): the record, its bytes, and the
 class whose methods write and read them in place.
 */
module ParamsCodec {
  import opened Bits
  import opened Wire
  import opened Varint
  import opened Fields
  import opened FieldLaws
  import opened Buffer
  import opened AmountText

  datatype ParamsValue = ParamsValue(denom: seq<byte>, amount: Amount, enabled: bool)

  /** `Params{}` */
  const EMPTY: ParamsValue := ParamsValue([], Unset, false)

  const SCHEMA: Schema := map[1 := Delimited, 2 := Delimited, 3 := Number]

  /** What one field does to the receiver. */
  function Apply(p: ParamsValue, f: Field): Outcome<ParamsValue> {
    match f
    case DelimitedField(num, payload) =>
      if num == 1 then Done(p.(denom := payload))
      else (match Parse(p.amount, payload)
            case Err(e) => Failed(p, e)
            case Ok(a) => Done(p.(amount := a)))
    case NumberField(num, v) => Done(p.(enabled := v != 0))
    case UnknownField(raw) => Done(p)
  }

  /** The effect of `Unmarshal` on a receiver that holds p. */
  function Decoding(p: ParamsValue, s: seq<byte>, pos: nat): Outcome<ParamsValue>
    requires pos + |s| <= MAX_INT
  {
    Decode(SCHEMA, Apply, p, s, pos)
  }

  /** The bytes of `Marshal`: fields in ascending order, empty denom and false left out. */
  function Encoding(p: ParamsValue): seq<byte> {
    DenomBytes(p.denom) + DelimitedBytes(0x12, Print(p.amount)) + EnabledBytes(p.enabled)
  }

  function DenomBytes(denom: seq<byte>): seq<byte> {
    if denom == [] then [] else DelimitedBytes(0xa, denom)
  }

  function EnabledBytes(enabled: bool): seq<byte> {
    if enabled then TrueBytes(0x18) else []
  }

  /** The encoding has a length a Go slice can have. */
  predicate Fits(p: ParamsValue) {
    |Encoding(p)| <= MAX_INT
  }

  /** What a written record reads back as: an unset amount has become zero. */
  function Settled(p: ParamsValue): ParamsValue {
    p.(amount := Settle(p.amount))
  }

  /** The outcome of an `Unmarshal` that left value v. */
  function Ended<V>(v: V, err: Option<Error>): Outcome<V> {
    match err
    case None => Done(v)
    case Some(e) => Failed(v, e)
  }

  // ------------------------------------------------------------------ class

  class Params {
    var MintDenom: seq<byte>
    var MintAmount: Amount
    var MintEnabled: bool

    constructor ()
      ensures Value() == EMPTY
    {
      MintDenom, MintAmount, MintEnabled := [], Unset, false;
    }

    function Value(): ParamsValue
      reads this
    {
      ParamsValue(MintDenom, MintAmount, MintEnabled)
    }

    method Size() returns (n: nat)
      ensures n == |Encoding(Value())|
    {
      n := 0;
      var l := |MintDenom|;
      if l > 0 {
        n := n + 1 + l + Sov(l);
        DelimitedSize(0xa, MintDenom);
      }
      l := |Print(MintAmount)|;
      n := n + 1 + l + Sov(l);
      DelimitedSize(0x12, Print(MintAmount));
      if MintEnabled {
        n := n + 2;
      }
    }

    method Marshal() returns (dAtA: array<byte>)
      requires Fits(Value())
      ensures fresh(dAtA) && dAtA[..] == Encoding(Value())
    {
      var size := Size();
      dAtA := new byte[size](i => 0);
      var n := MarshalToSizedBuffer(dAtA, size);
      assert dAtA[..] == dAtA[size - n..];
    }

    /** Writes into `dAtA[:len]`, at its end. */
    method MarshalToSizedBuffer(dAtA: array<byte>, len: nat) returns (n: nat)
      requires Fits(Value())
      requires |Encoding(Value())| <= len <= dAtA.Length
      modifies dAtA
      ensures n == |Encoding(Value())|
      ensures forall k :: 0 <= k < len - n ==> dAtA[k] == old(dAtA[k])
      ensures dAtA[len - n..] == Encoding(Value()) + old(dAtA[len..])
    {
      hide DelimitedBytes, Print;
      PayloadFits(0x12, Print(MintAmount));
      PayloadFits(0xa, MintDenom);
      var i := len;
      ghost var tail := dAtA[len..];
      if MintEnabled {
        i := PutTrue(dAtA, i, 0x18);
      }
      assert dAtA[i..] == EnabledBytes(MintEnabled) + tail;
      i := PutDelimited(dAtA, i, 0x12, Print(MintAmount));
      assert dAtA[i..] == DelimitedBytes(0x12, Print(MintAmount)) + (EnabledBytes(MintEnabled) + tail);
      if |MintDenom| > 0 {
        i := PutDelimited(dAtA, i, 0xa, MintDenom);
      }
      n := len - i;
      Regroup(DenomBytes(MintDenom), DelimitedBytes(0x12, Print(MintAmount)), EnabledBytes(MintEnabled), tail);
    }

    method Unmarshal(dAtA: seq<byte>) returns (err: Option<Error>)
      requires |dAtA| <= MAX_INT
      modifies this
      ensures Ended(Value(), err) == Decoding(old(Value()), dAtA, 0)
    {
      hide ReadField;
      var l := |dAtA|;
      var iNdEx := 0;
      assert dAtA[0..] == dAtA;
      while iNdEx < l
        invariant 0 <= iNdEx <= l
        invariant Decoding(old(Value()), dAtA, 0) == Decoding(Value(), dAtA[iNdEx..], iNdEx)
        decreases l - iNdEx
      {
        ghost var before := Value();
        var next := NextField(SCHEMA, dAtA, iNdEx);
        if next.Err? {
          return Some(next.error);
        }
        match next.value.field {
          case DelimitedField(num, payload) =>
            if num == 1 {
              MintDenom := payload;
            } else {
              var parsed := Parse(MintAmount, payload);
              if parsed.Err? {
                return Some(parsed.error);
              }
              MintAmount := parsed.value;
            }
          case NumberField(_, v) =>
            MintEnabled := v != 0;
          case UnknownField(_) =>
        }
        assert Apply(before, next.value.field) == Done(Value());
        DecodeStep(SCHEMA, Apply, before, dAtA, iNdEx);
        iNdEx := iNdEx + next.value.size;
      }
      return None;
    }
  }
}
