/**
 Writing a buffer backwards from an end index, and the fields so written.  Each method
 takes the index `end` up to which the buffer is still free and answers the new one;
 what lies below it is untouched and what lay above it follows the new bytes.
 */
module Buffer {
  import opened Bits
  import opened Wire
  import opened Varint
  import opened Fields
  import opened FieldLaws

  /** A length-delimited field: tag, length and payload. */
  function DelimitedBytes(tag: byte, payload: seq<byte>): seq<byte> {
    [tag] + Encode(|payload|) + payload
  }

  /** The varint field `tag: true`. */
  function TrueBytes(tag: byte): seq<byte> {
    [tag, 1]
  }

  lemma Assoc(a: seq<byte>, b: seq<byte>, c: seq<byte>)
    ensures a + (b + c) == a + b + c
  {
  }

  lemma Regroup(a: seq<byte>, b: seq<byte>, c: seq<byte>, tail: seq<byte>)
    ensures a + (b + (c + tail)) == a + b + c + tail
  {
  }

  /** `i -= len(data); copy(dAtA[i:], data)` */
  method PutBytes(dAtA: array<byte>, end: nat, data: seq<byte>) returns (i: nat)
    requires |data| <= end <= dAtA.Length
    modifies dAtA
    ensures i + |data| == end
    ensures forall k :: 0 <= k < i ==> dAtA[k] == old(dAtA[k])
    ensures dAtA[i..] == data + old(dAtA[end..])
  {
    i := end - |data|;
    ghost var tail := dAtA[end..];
    for k := 0 to |data|
      invariant dAtA[i..i + k] == data[..k]
      invariant dAtA[end..] == tail
      invariant forall j :: 0 <= j < i ==> dAtA[j] == old(dAtA[j])
    {
      dAtA[i + k] := data[k];
      assert dAtA[i..i + k + 1] == dAtA[i..i + k] + [data[k]];
      assert data[..k + 1] == data[..k] + [data[k]];
    }
    assert data[..|data|] == data;
    assert dAtA[i..end] == data;
    assert dAtA[i..] == dAtA[i..end] + dAtA[end..];
  }

  /** `i--; dAtA[i] = b` */
  method PutByte(dAtA: array<byte>, end: nat, b: byte) returns (i: nat)
    requires 1 <= end <= dAtA.Length
    modifies dAtA
    ensures i + 1 == end
    ensures forall k :: 0 <= k < i ==> dAtA[k] == old(dAtA[k])
    ensures dAtA[i..] == [b] + old(dAtA[end..])
  {
    i := end - 1;
    dAtA[i] := b;
    assert dAtA[i..] == [b] + dAtA[end..];
    assert dAtA[end..] == old(dAtA[end..]);
  }

  /** The length and tag in front of a payload of `size` bytes already written. */
  method PutHeader(dAtA: array<byte>, end: nat, tag: byte, size: nat) returns (i: nat)
    requires size < TWO_64
    requires 1 + |Encode(size)| <= end <= dAtA.Length
    modifies dAtA
    ensures i + 1 + |Encode(size)| == end
    ensures forall k :: 0 <= k < i ==> dAtA[k] == old(dAtA[k])
    ensures dAtA[i..] == [tag] + Encode(size) + old(dAtA[end..])
  {
    SovIsLength(size);
    i := EncodeVarint(dAtA, end, size);
    i := PutByte(dAtA, i, tag);
    assert [tag] + (Encode(size) + old(dAtA[end..])) == [tag] + Encode(size) + old(dAtA[end..]);
  }

  method PutTrue(dAtA: array<byte>, end: nat, tag: byte) returns (i: nat)
    requires 2 <= end <= dAtA.Length
    modifies dAtA
    ensures i + 2 == end
    ensures forall k :: 0 <= k < i ==> dAtA[k] == old(dAtA[k])
    ensures dAtA[i..] == TrueBytes(tag) + old(dAtA[end..])
  {
    i := PutByte(dAtA, end, 1);
    i := PutByte(dAtA, i, tag);
  }

  method PutDelimited(dAtA: array<byte>, end: nat, tag: byte, payload: seq<byte>) returns (i: nat)
    requires |payload| < TWO_64
    requires |DelimitedBytes(tag, payload)| <= end <= dAtA.Length
    modifies dAtA
    ensures i + |DelimitedBytes(tag, payload)| == end
    ensures forall k :: 0 <= k < i ==> dAtA[k] == old(dAtA[k])
    ensures dAtA[i..] == DelimitedBytes(tag, payload) + old(dAtA[end..])
  {
    hide Encode;
    i := PutBytes(dAtA, end, payload);
    i := PutHeader(dAtA, i, tag, |payload|);
    assert [tag] + Encode(|payload|) + (payload + old(dAtA[end..])) == DelimitedBytes(tag, payload) + old(dAtA[end..]);
  }

  /** A field is longer than its payload, so a payload's length is a uint64 when the field fits. */
  lemma PayloadFits(tag: byte, payload: seq<byte>)
    ensures |payload| < |DelimitedBytes(tag, payload)|
  {
  }

  /** The byte count of a length-delimited field, as every `Size` adds it up. */
  lemma DelimitedSize(tag: byte, payload: seq<byte>)
    ensures |DelimitedBytes(tag, payload)| == 1 + |payload| + Sov(|payload|)
  {
    SovIsLength(|payload|);
  }

  /** A one-byte tag is read as its field number and wire type. */
  lemma ReadSmallTag(tag: byte, rest: seq<byte>)
    requires 8 <= tag < 128 && tag % 8 != 4
    ensures ReadTag([tag] + rest) == Ok(Tag(tag / 8, tag % 8, 1))
    ensures ([tag] + rest)[1..] == rest
  {
    hide Extent, Digits;
    assert Encode(tag) == [tag];
    RoundTrip(tag, rest);
    assert Read([tag] + rest) == Ok(Decoded(tag, 1));
  }

  lemma ReadDelimited(schema: Schema, tag: byte, payload: seq<byte>, pos: nat)
    requires pos + |DelimitedBytes(tag, payload)| <= MAX_INT
    requires 8 <= tag < 128 && tag % 8 == 2
    requires tag / 8 in schema && schema[tag / 8] == Delimited
    ensures ReadField(schema, DelimitedBytes(tag, payload), pos)
         == Ok(Parsed(DelimitedField(tag / 8, payload), |DelimitedBytes(tag, payload)|))
  {
    hide Read, ReadTag, ReadSpan;
    var n := |payload|;
    var s := DelimitedBytes(tag, payload);
    assert s == [tag] + (Encode(n) + payload);
    ReadSmallTag(tag, Encode(n) + payload);
    RoundTrip(n, payload);
    SpanFits(s[1..], pos + 1);
    assert s[1 + |Encode(n)|..|s|] == payload;
  }

  lemma ReadTrue(schema: Schema, tag: byte, pos: nat)
    requires pos + 2 <= MAX_INT
    requires 8 <= tag < 128 && tag % 8 == 0
    requires tag / 8 in schema && schema[tag / 8] == Number
    ensures ReadField(schema, TrueBytes(tag), pos) == Ok(Parsed(NumberField(tag / 8, 1), 2))
  {
    hide Read, ReadTag;
    ReadSmallTag(tag, [1]);
    assert Encode(1) + [] == [1];
    RoundTrip(1, []);
    assert TrueBytes(tag) == [tag] + [1];
  }
}
