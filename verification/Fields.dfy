/**
 What every generated `Unmarshal` shares: reading one field, and folding the fields
 of a buffer into the receiver.  A message is described by the kinds of its known
 fields and by what one field does to the receiver.

 Go compares absolute indices, so an absurd length is reported as a negative length
 or as a short buffer depending on where in the buffer it stands; `pos` is that index.
 */
module Fields {
  import opened Bits
  import opened Wire
  import opened Varint
  import opened Skipper

  /** How the payload of a known field is read. */
  datatype Kind = Delimited | Number
  type Schema = map<int, Kind>

  datatype Field =
    | DelimitedField(num: int, payload: Slice)
    | NumberField(num: int, value: u64)
    | UnknownField(raw: seq<byte>)

  /** A field read off the head of a buffer and the bytes it took. */
  datatype Parsed = Parsed(field: Field, size: nat)

  datatype Tag = Tag(num: int, wireType: nat, size: nat)

  /** Absolute bounds of a slice `dAtA[start:end]`. */
  datatype Span = Span(start: nat, end: nat)

  // ---------------------------------------------------------- specification

  function ReadTag(s: seq<byte>): (r: Result<Tag>)
    ensures r.Ok? ==> 1 <= r.value.size <= |s|
  {
    match Read(s)
    case Err(e) => Err(e)
    case Ok(Decoded(wire, k)) =>
      var fieldNum := ToInt32(wire / 8);
      if wire % 8 == 4 then Err(EndGroupForNonGroup)
      else if fieldNum <= 0 then Err(IllegalTag)
      else Ok(Tag(fieldNum, wire % 8, k))
  }

  function ReadSpan(s: seq<byte>, pos: nat): (r: Result<Span>)
    requires pos + |s| <= MAX_INT
    ensures r.Ok? ==> pos < r.value.start <= r.value.end <= pos + |s|
  {
    match Read(s)
    case Err(e) => Err(e)
    case Ok(Decoded(v, k)) =>
      var length := ToInt64(v);
      if length < 0 then Err(InvalidLength)
      else
        var postIndex := AddInt(pos + k, length);
        if postIndex < 0 then Err(InvalidLength)
        else if postIndex > pos + |s| then Err(UnexpectedEOF)
        else Ok(Span(pos + k, postIndex))
  }

  function ReadUnknown(s: seq<byte>, pos: nat): (r: Result<nat>)
    requires pos + |s| <= MAX_INT
    ensures r.Ok? ==> 1 <= r.value <= |s|
  {
    match Skip(s)
    case Err(e) => Err(e)
    case Ok(n) =>
      if AddInt(pos, n) < 0 then Err(InvalidLength)
      else if AddInt(pos, n) > pos + |s| then Err(UnexpectedEOF)
      else Ok(n)
  }

  function ReadField(schema: Schema, s: seq<byte>, pos: nat): (r: Result<Parsed>)
    requires pos + |s| <= MAX_INT
    ensures r.Ok? ==> 1 <= r.value.size <= |s|
  {
    match ReadTag(s)
    case Err(e) => Err(e)
    case Ok(Tag(num, wireType, k)) =>
      if num !in schema then
        match ReadUnknown(s, pos)
        case Err(e) => Err(e)
        case Ok(n) => Ok(Parsed(UnknownField(s[..n]), n))
      else match schema[num]
        case Delimited =>
          if wireType != 2 then Err(WrongWireType)
          else (match ReadSpan(s[k..], pos + k)
                case Err(e) => Err(e)
                case Ok(Span(start, end)) =>
                  Ok(Parsed(DelimitedField(num, s[start - pos..end - pos]), end - pos)))
        case Number =>
          if wireType != 0 then Err(WrongWireType)
          else (match Read(s[k..])
                case Err(e) => Err(e)
                case Ok(Decoded(v, n)) => Ok(Parsed(NumberField(num, v), k + n)))
  }

  /** The receiver after `Unmarshal`, with the error if there was one. */
  datatype Outcome<+M> = Done(msg: M) | Failed(msg: M, error: Error)

  function Decode<M>(schema: Schema, apply: (M, Field) -> Outcome<M>, m: M, s: seq<byte>, pos: nat): Outcome<M>
    requires pos + |s| <= MAX_INT
    decreases |s|
  {
    if s == [] then Done(m)
    else
      match ReadField(schema, s, pos)
      case Err(e) => Failed(m, e)
      case Ok(Parsed(f, n)) =>
        match apply(m, f)
        case Failed(m', e) => Failed(m', e)
        case Done(m') => Decode(schema, apply, m', s[n..], pos + n)
  }

  // ---------------------------------------------------------------- methods

  /** The tag of the field at `start`, with the checks that precede the switch. */
  method NextTag(dAtA: seq<byte>, start: nat) returns (r: Result<Tag>)
    requires start <= |dAtA|
    ensures r == ReadTag(dAtA[start..])
  {
    hide Extent, Digits;
    var wire := ReadVarint(dAtA, start);
    if wire.Err? {
      return Err(wire.error);
    }
    var fieldNum := ToInt32(Shr(wire.value.value, 3));
    var wireType := BitAnd(wire.value.value, 0x7);
    ShrThree(wire.value.value);
    AndThreeOnes(wire.value.value);
    if wireType == 4 {
      return Err(EndGroupForNonGroup);
    }
    if fieldNum <= 0 {
      return Err(IllegalTag);
    }
    return Ok(Tag(fieldNum, wireType, wire.value.size));
  }

  /** A length and the bounds of the bytes it announces. */
  method NextSpan(dAtA: seq<byte>, start: nat) returns (r: Result<Span>)
    requires start <= |dAtA| <= MAX_INT
    ensures r == ReadSpan(dAtA[start..], start)
  {
    hide Extent, Digits;
    var length := ReadVarint(dAtA, start);
    if length.Err? {
      return Err(length.error);
    }
    var iNdEx := start + length.value.size;
    var intLength := ToInt64(length.value.value);
    if intLength < 0 {
      return Err(InvalidLength);
    }
    var postIndex := AddInt(iNdEx, intLength);
    if postIndex < 0 {
      return Err(InvalidLength);
    }
    if postIndex > |dAtA| {
      return Err(UnexpectedEOF);
    }
    return Ok(Span(iNdEx, postIndex));
  }

  /** The default branch: the size of the unknown record at `start`. */
  method NextUnknown(dAtA: seq<byte>, start: nat) returns (r: Result<nat>)
    requires start <= |dAtA| <= MAX_INT
    ensures r == ReadUnknown(dAtA[start..], start)
  {
    hide SkipFrom;
    var skippy := SkipRecord(dAtA[start..]);
    if skippy.Err? {
      return Err(skippy.error);
    }
    if skippy.value < 0 || AddInt(start, skippy.value) < 0 {
      return Err(InvalidLength);
    }
    if AddInt(start, skippy.value) > |dAtA| {
      return Err(UnexpectedEOF);
    }
    return Ok(skippy.value);
  }

  /** One pass of a generated `Unmarshal`'s loop, up to the assignment to the receiver. */
  method NextField(schema: Schema, dAtA: seq<byte>, start: nat) returns (r: Result<Parsed>)
    requires start <= |dAtA| <= MAX_INT
    ensures r == ReadField(schema, dAtA[start..], start)
  {
    hide Read, ReadTag, ReadSpan, ReadUnknown;
    ghost var s := dAtA[start..];
    var iNdEx := start;
    var tag := NextTag(dAtA, iNdEx);
    if tag.Err? {
      return Err(tag.error);
    }
    iNdEx := iNdEx + tag.value.size;
    assert dAtA[iNdEx..] == s[tag.value.size..];
    var fieldNum, wireType := tag.value.num, tag.value.wireType;
    if fieldNum !in schema {
      var skippy := NextUnknown(dAtA, start);
      if skippy.Err? {
        return Err(skippy.error);
      }
      assert dAtA[start..start + skippy.value] == s[..skippy.value];
      return Ok(Parsed(UnknownField(dAtA[start..start + skippy.value]), skippy.value));
    } else if schema[fieldNum] == Delimited {
      if wireType != 2 {
        return Err(WrongWireType);
      }
      var span := NextSpan(dAtA, iNdEx);
      if span.Err? {
        return Err(span.error);
      }
      var Span(from, postIndex) := span.value;
      assert dAtA[from..postIndex] == s[from - start..postIndex - start];
      return Ok(Parsed(DelimitedField(fieldNum, dAtA[from..postIndex]), postIndex - start));
    } else {
      if wireType != 0 {
        return Err(WrongWireType);
      }
      var v := ReadVarint(dAtA, iNdEx);
      if v.Err? {
        return Err(v.error);
      }
      return Ok(Parsed(NumberField(fieldNum, v.value.value), tag.value.size + v.value.size));
    }
  }
}
