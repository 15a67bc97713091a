/**
 The record skipper (`skipParams`, `skipTx`, `skipGenesis`: one algorithm, three
 copies).  The grammar it recognises is in `Grammar`.  Protocol Buffers Encoding, sections
 "Length-Delimited Records" and "Groups".
 */
module Skipper {
  import opened Bits
  import opened Wire
  import opened Varint

  /** One pass of the skipper's loop: the wire type met and the index it ends at. */
  datatype Token = Token(wireType: nat, end: nat)

  /** Ends a token at a Go int; a wrapped, hence negative, index is refused. */
  function EndAt(wireType: nat, end: int): Result<Token> {
    if end < 0 then Err(InvalidLength) else Ok(Token(wireType, end))
  }

  /** The token at the head of s, which starts at index pos of the slice. */
  function ReadToken(s: seq<byte>, pos: nat): (r: Result<Token>)
    requires pos + |s| <= MAX_INT
    ensures r.Ok? ==> r.value.wireType < 6 && pos < r.value.end <= MAX_INT
  {
    match Read(s)
    case Err(e) => Err(e)
    case Ok(Decoded(wire, k)) =>
      var wireType := wire % 8;
      if wireType == 0 then
        match Extent(s[k..], 0)
        case Err(e) => Err(e)
        case Ok(n) => Ok(Token(0, pos + k + n))
      else if wireType == 1 then EndAt(1, AddInt(pos + k, 8))
      else if wireType == 2 then
        match Read(s[k..])
        case Err(e) => Err(e)
        case Ok(Decoded(v, n)) =>
          if ToInt64(v) < 0 then Err(InvalidLength) else EndAt(2, AddInt(pos + k + n, ToInt64(v)))
      else if wireType == 3 then Ok(Token(3, pos + k))
      else if wireType == 4 then Ok(Token(4, pos + k))
      else if wireType == 5 then EndAt(5, AddInt(pos + k, 4))
      else Err(IllegalWireType)
  }

  /** The group depth after a token, or the error of an end without a start. */
  function Deepen(depth: nat, wireType: nat): Result<nat> {
    if wireType == 3 then Ok(depth + 1)
    else if wireType != 4 then Ok(depth)
    else if depth == 0 then Err(UnexpectedEndOfGroup)
    else Ok(depth - 1)
  }

  /** Where the skipper stops when it stands at the head of s with `depth` open groups. */
  function SkipFrom(s: seq<byte>, pos: nat, depth: nat): (r: Result<nat>)
    requires pos + |s| <= MAX_INT
    ensures r.Ok? ==> pos < r.value <= MAX_INT
    decreases |s|
  {
    if s == [] then Err(UnexpectedEOF)
    else
      match ReadToken(s, pos)
      case Err(e) => Err(e)
      case Ok(Token(wireType, end)) =>
        match Deepen(depth, wireType)
        case Err(e) => Err(e)
        case Ok(depth') =>
          if depth' == 0 then Ok(end)
          else if end > pos + |s| then Err(UnexpectedEOF)
          else SkipFrom(s[end - pos..], end, depth')
  }

  /** The byte count `skipParams` answers; it may exceed |s| when the last field is cut short. */
  function Skip(s: seq<byte>): (r: Result<nat>)
    requires |s| <= MAX_INT
    ensures r.Ok? ==> 0 < r.value <= MAX_INT
  {
    SkipFrom(s, 0, 0)
  }

  /** The body of the skipper's loop up to the depth bookkeeping. */
  method NextToken(dAtA: seq<byte>, start: nat) returns (r: Result<Token>)
    requires start <= |dAtA| <= MAX_INT
    ensures r == ReadToken(dAtA[start..], start)
  {
    var iNdEx := start;
    ghost var s := dAtA[start..];
    var tag := ReadVarint(dAtA, iNdEx);
    if tag.Err? {
      return Err(tag.error);
    }
    iNdEx := iNdEx + tag.value.size;
    assert dAtA[iNdEx..] == s[tag.value.size..];
    var wireType := BitAnd(tag.value.value, 0x7);
    AndThreeOnes(tag.value.value);
    match wireType {
      case 0 =>
        var skipped := ReadVarint(dAtA, iNdEx);
        if skipped.Err? {
          return Err(skipped.error);
        }
        iNdEx := iNdEx + skipped.value.size;
      case 1 =>
        iNdEx := AddInt(iNdEx, 8);
      case 2 =>
        var length := ReadVarint(dAtA, iNdEx);
        if length.Err? {
          return Err(length.error);
        }
        iNdEx := iNdEx + length.value.size;
        if ToInt64(length.value.value) < 0 {
          return Err(InvalidLength);
        }
        iNdEx := AddInt(iNdEx, ToInt64(length.value.value));
      case 3 =>
      case 4 =>
      case 5 =>
        iNdEx := AddInt(iNdEx, 4);
      case _ =>
        return Err(IllegalWireType);
    }
    return EndAt(wireType, iNdEx);
  }

  /** `skipParams`, and its copies `skipTx` and `skipGenesis`. */
  method SkipRecord(dAtA: seq<byte>) returns (r: Result<nat>)
    requires |dAtA| <= MAX_INT
    ensures r == Skip(dAtA)
  {
    hide ReadToken;
    var l := |dAtA|;
    var iNdEx := 0;
    var depth := 0;
    assert dAtA[0..] == dAtA;
    while iNdEx < l
      invariant 0 <= iNdEx && 0 <= depth
      invariant Skip(dAtA) == if iNdEx <= l then SkipFrom(dAtA[iNdEx..], iNdEx, depth) else Err(UnexpectedEOF)
      decreases l - iNdEx
    {
      var token := NextToken(dAtA, iNdEx);
      if token.Err? {
        return Err(token.error);
      }
      if token.value.wireType == 3 {
        depth := depth + 1;
      } else if token.value.wireType == 4 {
        if depth == 0 {
          return Err(UnexpectedEndOfGroup);
        }
        depth := depth - 1;
      }
      var end := token.value.end;
      if depth == 0 {
        return Ok(end);
      }
      assert end <= l ==> dAtA[end..] == dAtA[iNdEx..][end - iNdEx..];
      iNdEx := end;
    }
    return Err(UnexpectedEOF);
  }
}
