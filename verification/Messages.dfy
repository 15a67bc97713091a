/**
 The messages that carry a `Params`: `MsgUpdateParams` and its empty response
 (x/fixedmint/types/tx.pb.go) and `GenesisState` (x/fixedmint/types/genesis.pb.go).
 A nested message is written at the tail of the free part of its parent's buffer and
 read into the parent's own `Params` object, which it merges into.
 */
module Messages {
  import opened Bits
  import opened Wire
  import opened Varint
  import opened Fields
  import opened FieldLaws
  import opened Buffer
  import P = ParamsCodec

  datatype MsgValue = MsgValue(authority: seq<byte>, params: P.ParamsValue)
  const EMPTY_MSG: MsgValue := MsgValue([], P.EMPTY)
  const MSG_SCHEMA: Schema := map[1 := Delimited, 2 := Delimited]

  /** A nested message: merged into `params`, which keeps what a failure left. */
  function Nested(p: P.ParamsValue, payload: Slice): Outcome<P.ParamsValue> {
    P.Decoding(p, payload, 0)
  }

  function ApplyMsg(m: MsgValue, f: Field): Outcome<MsgValue> {
    match f
    case DelimitedField(num, payload) =>
      if num == 1 then Done(m.(authority := payload))
      else (match Nested(m.params, payload)
            case Failed(p, e) => Failed(m.(params := p), e)
            case Done(p) => Done(m.(params := p)))
    case NumberField(_, _) => Done(m)
    case UnknownField(_) => Done(m)
  }

  function MsgDecoding(m: MsgValue, s: seq<byte>, pos: nat): Outcome<MsgValue>
    requires pos + |s| <= MAX_INT
  {
    Decode(MSG_SCHEMA, ApplyMsg, m, s, pos)
  }

  function AuthorityBytes(authority: seq<byte>): seq<byte> {
    if authority == [] then [] else DelimitedBytes(0xa, authority)
  }

  function MsgEncoding(m: MsgValue): seq<byte> {
    AuthorityBytes(m.authority) + DelimitedBytes(0x12, P.Encoding(m.params))
  }

  datatype GenesisValue = GenesisValue(params: P.ParamsValue)
  const EMPTY_GENESIS: GenesisValue := GenesisValue(P.EMPTY)
  const GENESIS_SCHEMA: Schema := map[1 := Delimited]

  function ApplyGenesis(g: GenesisValue, f: Field): Outcome<GenesisValue> {
    match f
    case DelimitedField(_, payload) =>
      (match Nested(g.params, payload)
       case Failed(p, e) => Failed(GenesisValue(p), e)
       case Done(p) => Done(GenesisValue(p)))
    case NumberField(_, _) => Done(g)
    case UnknownField(_) => Done(g)
  }

  function GenesisDecoding(g: GenesisValue, s: seq<byte>, pos: nat): Outcome<GenesisValue>
    requires pos + |s| <= MAX_INT
  {
    Decode(GENESIS_SCHEMA, ApplyGenesis, g, s, pos)
  }

  function GenesisEncoding(g: GenesisValue): seq<byte> {
    DelimitedBytes(0xa, P.Encoding(g.params))
  }

  function Ignore(m: (), f: Field): Outcome<()> {
    Done(m)
  }

  function ResponseDecoding(s: seq<byte>, pos: nat): Outcome<()>
    requires pos + |s| <= MAX_INT
  {
    Decode(map[], Ignore, (), s, pos)
  }

  // ---------------------------------------------------------------- classes

  class MsgUpdateParams {
    var Authority: seq<byte>
    const Params: P.Params

    constructor ()
      ensures fresh(Params) && Value() == EMPTY_MSG
    {
      Authority := [];
      Params := new P.Params();
    }

    function Value(): MsgValue
      reads this, Params
    {
      MsgValue(Authority, Params.Value())
    }

    method Size() returns (n: nat)
      ensures n == |MsgEncoding(Value())|
    {
      hide P.Encoding;
      n := 0;
      var l := |Authority|;
      if l > 0 {
        n := n + 1 + l + Sov(l);
        DelimitedSize(0xa, Authority);
      }
      l := Params.Size();
      n := n + 1 + l + Sov(l);
      DelimitedSize(0x12, P.Encoding(Params.Value()));
    }

    method Marshal() returns (dAtA: array<byte>)
      requires |MsgEncoding(Value())| <= MAX_INT
      ensures fresh(dAtA) && dAtA[..] == MsgEncoding(Value())
    {
      hide MsgEncoding;
      var size := Size();
      dAtA := new byte[size](i => 0);
      var n := MarshalToSizedBuffer(dAtA, size);
      assert dAtA[..] == dAtA[size - n..];
    }

    method MarshalToSizedBuffer(dAtA: array<byte>, len: nat) returns (n: nat)
      requires |MsgEncoding(Value())| <= MAX_INT
      requires |MsgEncoding(Value())| <= len <= dAtA.Length
      modifies dAtA
      ensures n == |MsgEncoding(Value())|
      ensures forall k :: 0 <= k < len - n ==> dAtA[k] == old(dAtA[k])
      ensures dAtA[len - n..] == MsgEncoding(Value()) + old(dAtA[len..])
    {
      hide P.Encoding, Encode;
      ghost var tail, inner := dAtA[len..], P.Encoding(Params.Value());
      var i := len;
      var size := Params.MarshalToSizedBuffer(dAtA, i);
      i := i - size;
      i := PutHeader(dAtA, i, 0x12, size);
      HeaderAndPayload(0x12, inner, tail);
      assert dAtA[i..] == DelimitedBytes(0x12, inner) + tail;
      if |Authority| > 0 {
        i := PutDelimited(dAtA, i, 0xa, Authority);
      }
      n := len - i;
      Assoc(AuthorityBytes(Authority), DelimitedBytes(0x12, inner), tail);
    }

    method Unmarshal(dAtA: seq<byte>) returns (err: Option<Error>)
      requires |dAtA| <= MAX_INT
      modifies this, Params
      ensures P.Ended(Value(), err) == MsgDecoding(old(Value()), dAtA, 0)
    {
      hide ReadField, P.Decoding;
      var l := |dAtA|;
      var iNdEx := 0;
      assert dAtA[0..] == dAtA;
      while iNdEx < l
        invariant 0 <= iNdEx <= l
        invariant MsgDecoding(old(Value()), dAtA, 0) == MsgDecoding(Value(), dAtA[iNdEx..], iNdEx)
        decreases l - iNdEx
      {
        ghost var before := Value();
        var next := NextField(MSG_SCHEMA, dAtA, iNdEx);
        if next.Err? {
          return Some(next.error);
        }
        match next.value.field {
          case DelimitedField(num, payload) =>
            if num == 1 {
              Authority := payload;
            } else {
              err := Params.Unmarshal(payload);
              if err.Some? {
                return;
              }
            }
          case NumberField(_, _) =>
          case UnknownField(_) =>
        }
        assert ApplyMsg(before, next.value.field) == Done(Value());
        DecodeStep(MSG_SCHEMA, ApplyMsg, before, dAtA, iNdEx);
        iNdEx := iNdEx + next.value.size;
      }
      return None;
    }
  }

  class GenesisState {
    const Params: P.Params

    constructor ()
      ensures fresh(Params) && Value() == EMPTY_GENESIS
    {
      Params := new P.Params();
    }

    function Value(): GenesisValue
      reads Params
    {
      GenesisValue(Params.Value())
    }

    method Size() returns (n: nat)
      ensures n == |GenesisEncoding(Value())|
    {
      hide P.Encoding;
      var l := Params.Size();
      n := 1 + l + Sov(l);
      DelimitedSize(0xa, P.Encoding(Params.Value()));
    }

    method Marshal() returns (dAtA: array<byte>)
      requires |GenesisEncoding(Value())| <= MAX_INT
      ensures fresh(dAtA) && dAtA[..] == GenesisEncoding(Value())
    {
      hide GenesisEncoding;
      var size := Size();
      dAtA := new byte[size](i => 0);
      var n := MarshalToSizedBuffer(dAtA, size);
      assert dAtA[..] == dAtA[size - n..];
    }

    method MarshalToSizedBuffer(dAtA: array<byte>, len: nat) returns (n: nat)
      requires |GenesisEncoding(Value())| <= MAX_INT
      requires |GenesisEncoding(Value())| <= len <= dAtA.Length
      modifies dAtA
      ensures n == |GenesisEncoding(Value())|
      ensures forall k :: 0 <= k < len - n ==> dAtA[k] == old(dAtA[k])
      ensures dAtA[len - n..] == GenesisEncoding(Value()) + old(dAtA[len..])
    {
      hide P.Encoding, Encode;
      ghost var tail, inner := dAtA[len..], P.Encoding(Params.Value());
      var i := len;
      var size := Params.MarshalToSizedBuffer(dAtA, i);
      i := i - size;
      i := PutHeader(dAtA, i, 0xa, size);
      HeaderAndPayload(0xa, inner, tail);
      n := len - i;
    }

    method Unmarshal(dAtA: seq<byte>) returns (err: Option<Error>)
      requires |dAtA| <= MAX_INT
      modifies Params
      ensures P.Ended(Value(), err) == GenesisDecoding(old(Value()), dAtA, 0)
    {
      hide ReadField, P.Decoding;
      var l := |dAtA|;
      var iNdEx := 0;
      assert dAtA[0..] == dAtA;
      while iNdEx < l
        invariant 0 <= iNdEx <= l
        invariant GenesisDecoding(old(Value()), dAtA, 0) == GenesisDecoding(Value(), dAtA[iNdEx..], iNdEx)
        decreases l - iNdEx
      {
        ghost var before := Value();
        var next := NextField(GENESIS_SCHEMA, dAtA, iNdEx);
        if next.Err? {
          return Some(next.error);
        }
        match next.value.field {
          case DelimitedField(_, payload) =>
            err := Params.Unmarshal(payload);
            if err.Some? {
              return;
            }
          case NumberField(_, _) =>
          case UnknownField(_) =>
        }
        assert ApplyGenesis(before, next.value.field) == Done(Value());
        DecodeStep(GENESIS_SCHEMA, ApplyGenesis, before, dAtA, iNdEx);
        iNdEx := iNdEx + next.value.size;
      }
      return None;
    }
  }

  /** `MsgUpdateParamsResponse` holds nothing, so its `Unmarshal` only judges the bytes. */
  class MsgUpdateParamsResponse {
    method Unmarshal(dAtA: seq<byte>) returns (err: Option<Error>)
      requires |dAtA| <= MAX_INT
      ensures P.Ended((), err) == ResponseDecoding(dAtA, 0)
      ensures err.None? <==> Records(map[], dAtA)
    {
      hide ReadField, Records;
      RecogniserAccepts(dAtA);
      var l := |dAtA|;
      var iNdEx := 0;
      assert dAtA[0..] == dAtA;
      while iNdEx < l
        invariant 0 <= iNdEx <= l
        invariant ResponseDecoding(dAtA, 0) == ResponseDecoding(dAtA[iNdEx..], iNdEx)
        decreases l - iNdEx
      {
        var next := NextField(map[], dAtA, iNdEx);
        if next.Err? {
          return Some(next.error);
        }
        DecodeStep(map[], Ignore, (), dAtA, iNdEx);
        iNdEx := iNdEx + next.value.size;
      }
      return None;
    }
  }

  /** The empty message accepts exactly the sequences of whole records. */
  lemma RecogniserAccepts(s: seq<byte>)
    requires |s| <= MAX_INT
    ensures ResponseDecoding(s, 0).Done? <==> Records(map[], s)
  {
    AcceptsExactlyRecords(map[], Ignore, (), s, 0);
  }

  // ------------------------------------------------------------------ laws

  lemma HeaderAndPayload(tag: byte, payload: seq<byte>, tail: seq<byte>)
    ensures [tag] + Encode(|payload|) + (payload + tail) == DelimitedBytes(tag, payload) + tail
  {
  }
}
