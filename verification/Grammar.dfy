/**
 The record grammar, written as trees and independently of any scanner: a record
 is a tag with a payload fixed by its wire type, or a group, which is a start tag,
 any number of records and an end tag.  The skipper counts open groups, so the end
 tag's field number is free.
 */
module Grammar {
  import opened Bits
  import opened Wire
  import opened Varint
  import opened Skipper

  datatype Record =
    | Scalar(tag: seq<byte>, payload: seq<byte>)
    | Group(start: seq<byte>, items: Forest, end: seq<byte>)
  datatype Forest = Empty | More(head: Record, tail: Forest)

  predicate IsTag(t: seq<byte>, wireType: nat) {
    IsVarint(t) && Read(t).value.value % 8 == wireType
  }

  predicate IsPayload(wireType: nat, p: seq<byte>) {
    match wireType
    case 0 => IsVarint(p)
    case 1 => |p| == 8
    case 2 => Read(p).Ok? && |p| == Read(p).value.size + Read(p).value.value
    case 5 => |p| == 4
    case _ => false
  }

  predicate ValidRecord(r: Record) {
    match r
    case Scalar(tag, payload) =>
      IsVarint(tag) && IsPayload(Read(tag).value.value % 8, payload)
    case Group(start, items, end) =>
      IsTag(start, 3) && ValidForest(items) && IsTag(end, 4)
  }

  predicate ValidForest(f: Forest) {
    match f
    case Empty => true
    case More(r, rest) => ValidRecord(r) && ValidForest(rest)
  }

  function Bytes(r: Record): seq<byte> {
    match r
    case Scalar(tag, payload) => tag + payload
    case Group(start, items, end) => start + ForestBytes(items) + end
  }

  function ForestBytes(f: Forest): seq<byte> {
    match f
    case Empty => []
    case More(r, rest) => Bytes(r) + ForestBytes(rest)
  }

  // ----------------------------------------------------------- single tokens

  lemma AddIntExact(x: nat, y: nat)
    ensures x + y <= MAX_INT ==> AddInt(x, y) == x + y
    ensures MAX_INT < x + y < TWO_64 ==> AddInt(x, y) < 0
  {
  }

  lemma ReadOfPrefixed(t: seq<byte>, rest: seq<byte>)
    requires IsVarint(t)
    ensures Read(t + rest) == Read(t) && Read(t).Ok? && Read(t).value.size == |t|
    ensures (t + rest)[|t|..] == rest
  {
    ReadLocal(t, rest);
  }

  lemma TokenOfScalar(tag: seq<byte>, payload: seq<byte>, rest: seq<byte>, pos: nat)
    requires IsVarint(tag)
    requires IsPayload(Read(tag).value.value % 8, payload)
    requires pos + |tag + payload + rest| <= MAX_INT
    ensures ReadToken(tag + payload + rest, pos)
         == Ok(Token(Read(tag).value.value % 8, pos + |tag| + |payload|))
  {
    hide Read, IsVarint, IsPayload;
    assert tag + payload + rest == tag + (payload + rest);
    ReadOfPrefixed(tag, payload + rest);
    PayloadEnds(Read(tag).value.value % 8, payload, rest, pos + |tag|);
  }

  /** How far a payload reaches, as the skipper computes it. */
  lemma PayloadEnds(wireType: nat, payload: seq<byte>, rest: seq<byte>, pos: nat)
    requires IsPayload(wireType, payload)
    requires pos + |payload + rest| <= MAX_INT
    ensures wireType == 0 ==> Extent(payload + rest, 0) == Ok(|payload|)
    ensures wireType == 1 ==> AddInt(pos, 8) == pos + |payload|
    ensures wireType == 2 ==>
      && Read(payload + rest).Ok?
      && ToInt64(Read(payload + rest).value.value) >= 0
      && AddInt(pos + Read(payload + rest).value.size, ToInt64(Read(payload + rest).value.value)) == pos + |payload|
    ensures wireType == 5 ==> AddInt(pos, 4) == pos + |payload|
    ensures wireType in {0, 1, 2, 5}
  {
    hide Read;
    if wireType == 0 {
      ExtentLocal(payload, rest, 0);
    } else if wireType == 2 {
      ReadLocal(payload, rest);
    }
  }

  lemma TokenOfGroupTag(tag: seq<byte>, rest: seq<byte>, pos: nat, wireType: nat)
    requires wireType == 3 || wireType == 4
    requires IsTag(tag, wireType)
    requires pos + |tag + rest| <= MAX_INT
    ensures ReadToken(tag + rest, pos) == Ok(Token(wireType, pos + |tag|))
    ensures (tag + rest)[|tag|..] == rest
  {
    ReadOfPrefixed(tag, rest);
  }

  lemma ScalarOfToken(s: seq<byte>, pos: nat) returns (k: nat)
    requires pos + |s| <= MAX_INT
    requires ReadToken(s, pos).Ok?
    requires ReadToken(s, pos).value.end <= pos + |s|
    ensures var n := ReadToken(s, pos).value.end - pos; var wireType := ReadToken(s, pos).value.wireType;
            && 1 <= k <= n
            && IsTag(s[..k], wireType)
            && if wireType == 3 || wireType == 4 then k == n else IsPayload(wireType, s[k..n])
  {
    hide Read, IsVarint, IsPayload;
    k := Read(s).value.size;
    ReadIsVarint(s);
    PayloadOfToken(s, pos, k);
  }

  lemma PayloadOfToken(s: seq<byte>, pos: nat, k: nat)
    requires pos + |s| <= MAX_INT
    requires ReadToken(s, pos).Ok? && ReadToken(s, pos).value.end <= pos + |s|
    requires k == Read(s).value.size
    ensures var n := ReadToken(s, pos).value.end - pos; var wireType := ReadToken(s, pos).value.wireType;
            && k <= n
            && wireType == Read(s).value.value % 8
            && if wireType == 3 || wireType == 4 then k == n else IsPayload(wireType, s[k..n])
  {
    hide Read, Extent, IsVarint, AddInt;
    AddIntExact(pos + k, 8);
    AddIntExact(pos + k, 4);
    if Read(s[k..]).Ok? {
      AddIntExact(pos + k + Read(s[k..]).value.size, Read(s[k..]).value.value);
    }
    var n := ReadToken(s, pos).value.end - pos;
    var wireType := ReadToken(s, pos).value.wireType;
    assert k <= n && s[k..][..n - k] == s[k..n];
    if wireType == 0 {
      VarintCut(s[k..], n - k);
    } else if wireType == 2 {
      LengthPrefixed(s[k..], n - k);
    }
  }

  lemma VarintCut(s: seq<byte>, n: nat)
    requires n <= |s| && Extent(s, 0) == Ok(n)
    ensures IsPayload(0, s[..n])
  {
    ExtentCut(s, 0, n);
  }

  /** A length prefix and the bytes it announces. */
  lemma LengthPrefixed(s: seq<byte>, n: nat)
    requires Read(s).Ok? && n == Read(s).value.size + Read(s).value.value <= |s|
    ensures IsPayload(2, s[..n])
  {
    var m := Read(s).value.size;
    ReadIsVarint(s);
    assert s[..n] == s[..m] + s[m..n];
    ReadLocal(s[..m], s[m..n]);
  }

  // ------------------------------------------------------------ completeness

  /** One pass of the loop over a token that lies within s. */
  lemma SkipStep(s: seq<byte>, pos: nat, depth: nat, wireType: nat, n: nat)
    requires pos + |s| <= MAX_INT && n <= |s|
    requires ReadToken(s, pos) == Ok(Token(wireType, pos + n))
    requires Deepen(depth, wireType).Ok?
    ensures SkipFrom(s, pos, depth)
         == if Deepen(depth, wireType).value == 0 then Ok(pos + n)
            else SkipFrom(s[n..], pos + n, Deepen(depth, wireType).value)
  {
    assert s != [];
  }

  lemma SkipsScalar(tag: seq<byte>, payload: seq<byte>, rest: seq<byte>, pos: nat, depth: nat)
    requires ValidRecord(Scalar(tag, payload))
    requires pos + |tag + payload + rest| <= MAX_INT
    ensures SkipFrom(tag + payload + rest, pos, depth)
         == if depth == 0 then Ok(pos + |tag + payload|) else SkipFrom(rest, pos + |tag + payload|, depth)
  {
    var n := |tag + payload|;
    TokenOfScalar(tag, payload, rest, pos);
    SkipStep(tag + payload + rest, pos, depth, Read(tag).value.value % 8, n);
    assert (tag + payload + rest)[n..] == rest;
  }

  lemma SkipsGroupTag(tag: seq<byte>, rest: seq<byte>, pos: nat, depth: nat, wireType: nat)
    requires wireType == 3 || (wireType == 4 && depth >= 1)
    requires IsTag(tag, wireType)
    requires pos + |tag + rest| <= MAX_INT
    ensures var depth' := Deepen(depth, wireType).value;
            SkipFrom(tag + rest, pos, depth) == if depth' == 0 then Ok(pos + |tag|) else SkipFrom(rest, pos + |tag|, depth')
  {
    TokenOfGroupTag(tag, rest, pos, wireType);
    SkipStep(tag + rest, pos, depth, wireType, |tag|);
  }

  lemma SkipsGroup(start: seq<byte>, body: seq<byte>, end: seq<byte>, rest: seq<byte>, pos: nat, depth: nat)
    requires IsTag(start, 3) && IsTag(end, 4)
    requires pos + |start + body + end + rest| <= MAX_INT
    requires SkipFrom(body + (end + rest), pos + |start|, depth + 1)
          == SkipFrom(end + rest, pos + |start| + |body|, depth + 1)
    ensures SkipFrom(start + (body + (end + rest)), pos, depth)
         == if depth == 0 then Ok(pos + |start + body + end|) else SkipFrom(rest, pos + |start + body + end|, depth)
  {
    hide ReadToken, SkipFrom, Read;
    SkipsGroupTag(start, body + (end + rest), pos, depth, 3);
    SkipsGroupTag(end, rest, pos + |start| + |body|, depth + 1, 4);
  }

  /** Inside a group the skipper passes over a whole record; outside, it stops after it. */
  lemma {:induction false} SkipsRecord(r: Record, rest: seq<byte>, pos: nat, depth: nat)
    requires ValidRecord(r)
    requires pos + |Bytes(r) + rest| <= MAX_INT
    ensures SkipFrom(Bytes(r) + rest, pos, depth)
         == if depth == 0 then Ok(pos + |Bytes(r)|) else SkipFrom(rest, pos + |Bytes(r)|, depth)
    decreases r
  {
    hide ReadToken, SkipFrom, Read;
    match r
    case Scalar(tag, payload) =>
      SkipsScalar(tag, payload, rest, pos, depth);
    case Group(start, items, end) =>
      var body := ForestBytes(items);
      assert Bytes(r) + rest == start + (body + (end + rest));
      SkipsForest(items, end + rest, pos + |start|, depth + 1);
      SkipsGroup(start, body, end, rest, pos, depth);
  }

  lemma {:induction false} SkipsForest(f: Forest, rest: seq<byte>, pos: nat, depth: nat)
    requires ValidForest(f)
    requires pos + |ForestBytes(f) + rest| <= MAX_INT
    requires depth >= 1
    ensures SkipFrom(ForestBytes(f) + rest, pos, depth) == SkipFrom(rest, pos + |ForestBytes(f)|, depth)
    decreases f
  {
    hide ReadToken, SkipFrom, Read;
    match f
    case Empty =>
      assert [] + rest == rest;
    case More(r, tail) =>
      assert ForestBytes(f) + rest == Bytes(r) + (ForestBytes(tail) + rest);
      SkipsRecord(r, ForestBytes(tail) + rest, pos, depth);
      SkipsForest(tail, rest, pos + |Bytes(r)|, depth);
  }

  // --------------------------------------------------------------- soundness

  /** What closes d open groups: d times the remaining items and the end tag. */
  datatype Closing = Closing(items: Forest, end: seq<byte>)

  function ClosingBytes(cs: seq<Closing>): seq<byte> {
    if cs == [] then [] else ForestBytes(cs[0].items) + cs[0].end + ClosingBytes(cs[1..])
  }

  predicate ValidClosings(cs: seq<Closing>) {
    forall i :: 0 <= i < |cs| ==> ValidForest(cs[i].items) && IsTag(cs[i].end, 4)
  }

  lemma Regroup(a: seq<byte>, b: seq<byte>, c: seq<byte>, d: seq<byte>)
    ensures a + b + c + d == a + (b + c + d)
  {
  }

  /** One more record in front of the innermost open group. */
  lemma Push(r: Record, cs: seq<Closing>) returns (cs': seq<Closing>)
    requires ValidRecord(r) && ValidClosings(cs) && cs != []
    ensures ValidClosings(cs') && |cs'| == |cs|
    ensures ClosingBytes(cs') == Bytes(r) + ClosingBytes(cs)
  {
    hide IsTag, Bytes, ValidRecord;
    var Closing(items, end) := cs[0];
    cs' := [Closing(More(r, items), end)] + cs[1..];
    assert cs'[1..] == cs[1..];
    Regroup(Bytes(r), ForestBytes(items), end, ClosingBytes(cs[1..]));
  }

  /** One pass of the loop, read backwards from its outcome. */
  lemma SkipUnstep(s: seq<byte>, pos: nat, depth: nat) returns (k: nat, n: nat, wireType: nat)
    requires pos + |s| <= MAX_INT
    requires SkipFrom(s, pos, depth).Ok? && SkipFrom(s, pos, depth).value <= pos + |s|
    ensures 1 <= k <= n <= |s| && IsTag(s[..k], wireType)
    ensures if wireType == 3 || wireType == 4 then k == n else IsPayload(wireType, s[k..n])
    ensures Deepen(depth, wireType).Ok?
    ensures SkipFrom(s, pos, depth)
         == if Deepen(depth, wireType).value == 0 then Ok(pos + n)
            else SkipFrom(s[n..], pos + n, Deepen(depth, wireType).value)
  {
    hide ReadToken, IsTag, IsPayload;
    var t := ReadToken(s, pos).value;
    wireType, n := t.wireType, t.end - pos;
    assert Deepen(depth, wireType).value != 0 ==> n <= |s|;
    k := ScalarOfToken(s, pos);
  }

  lemma ScalarBytes(s: seq<byte>, k: nat, n: nat, wireType: nat)
    requires k <= n <= |s| && IsTag(s[..k], wireType) && IsPayload(wireType, s[k..n])
    ensures ValidRecord(Scalar(s[..k], s[k..n])) && Bytes(Scalar(s[..k], s[k..n])) == s[..n]
  {
    assert s[..k] + s[k..n] == s[..n];
  }

  lemma {:induction false} SkipFindsClosings(s: seq<byte>, pos: nat, depth: nat) returns (cs: seq<Closing>)
    requires pos + |s| <= MAX_INT
    requires depth >= 1
    requires SkipFrom(s, pos, depth).Ok? && SkipFrom(s, pos, depth).value <= pos + |s|
    ensures |cs| == depth && ValidClosings(cs)
    ensures ClosingBytes(cs) == s[..SkipFrom(s, pos, depth).value - pos]
    decreases |s|
  {
    hide ReadToken, SkipFrom, Read;
    var stop := SkipFrom(s, pos, depth).value - pos;
    var k, n, wireType := SkipUnstep(s, pos, depth);
    if wireType == 4 && depth == 1 {
      cs := [Closing(Empty, s[..n])];
      assert cs[1..] == [];
    } else {
      var inner := SkipFindsClosings(s[n..], pos + n, Deepen(depth, wireType).value);
      assert s[..stop] == s[..n] + s[n..][..stop - n];
      cs := Prepend(s, k, n, wireType, inner);
    }
  }

  /** The closings in front of which one more token was met. */
  lemma Prepend(s: seq<byte>, k: nat, n: nat, wireType: nat, inner: seq<Closing>) returns (cs: seq<Closing>)
    requires k <= n <= |s| && IsTag(s[..k], wireType)
    requires if wireType == 3 || wireType == 4 then k == n else IsPayload(wireType, s[k..n])
    requires ValidClosings(inner) && |inner| >= (if wireType == 3 then 2 else 1)
    ensures |cs| == if wireType == 3 then |inner| - 1 else if wireType == 4 then |inner| + 1 else |inner|
    ensures ValidClosings(cs) && ClosingBytes(cs) == s[..n] + ClosingBytes(inner)
  {
    hide IsTag, IsPayload;
    if wireType == 4 {
      cs := [Closing(Empty, s[..n])] + inner;
      assert cs[1..] == inner;
    } else if wireType == 3 {
      var g := Group(s[..n], inner[0].items, inner[0].end);
      cs := Push(g, inner[1..]);
    } else {
      ScalarBytes(s, k, n, wireType);
      cs := Push(Scalar(s[..k], s[k..n]), inner);
    }
  }

  lemma SkipFindsRecord(s: seq<byte>) returns (r: Record)
    requires |s| <= MAX_INT
    requires Skip(s).Ok? && Skip(s).value <= |s|
    ensures ValidRecord(r) && Bytes(r) == s[..Skip(s).value]
  {
    hide ReadToken, SkipFrom, Read;
    var stop := Skip(s).value;
    var k, n, wireType := SkipUnstep(s, 0, 0);
    if wireType == 3 {
      var cs := SkipFindsClosings(s[n..], n, 1);
      r := Group(s[..n], cs[0].items, cs[0].end);
      assert cs[1..] == [];
      assert s[..stop] == s[..n] + s[n..][..stop - n];
    } else {
      r := Scalar(s[..k], s[k..n]);
      ScalarBytes(s, k, n, wireType);
    }
  }

  /** The bytes s are exactly one record. */
  ghost predicate IsRecord(s: seq<byte>) {
    exists r :: ValidRecord(r) && Bytes(r) == s
  }

  lemma SkipStopsAfter(r: Record, rest: seq<byte>)
    requires ValidRecord(r) && |Bytes(r) + rest| <= MAX_INT
    ensures Skip(Bytes(r) + rest) == Ok(|Bytes(r)|)
  {
    SkipsRecord(r, rest, 0, 0);
  }

  /** The skipper recognises exactly the grammar. */
  lemma SkipRecognisesRecords(s: seq<byte>, n: nat)
    requires |s| <= MAX_INT
    ensures Skip(s) == Ok(n) && n <= |s| <==> n <= |s| && IsRecord(s[..n])
  {
    hide Skip, ValidRecord, Bytes;
    if Skip(s) == Ok(n) && n <= |s| {
      var r := SkipFindsRecord(s);
    }
    if n <= |s| && IsRecord(s[..n]) {
      var r :| ValidRecord(r) && Bytes(r) == s[..n];
      assert s == Bytes(r) + s[n..];
      SkipStopsAfter(r, s[n..]);
    }
  }

  /** No record is a proper prefix of another: input splits into records in one way. */
  lemma RecordsArePrefixFree(a: seq<byte>, b: seq<byte>)
    requires |a + b| <= MAX_INT
    requires IsRecord(a) && IsRecord(a + b)
    ensures b == []
  {
    assert (a + b)[..|a|] == a;
    assert (a + b)[..|a + b|] == a + b;
    SkipRecognisesRecords(a + b, |a|);
    SkipRecognisesRecords(a + b, |a + b|);
  }

  // --------------------------------------------------------------- refusals

  /** Every way in which the skipper refuses the token it stands at, with its error. */
  lemma SkipRefusals(s: seq<byte>, pos: nat, depth: nat)
    requires pos + |s| <= MAX_INT
    ensures s == [] ==> SkipFrom(s, pos, depth) == Err(UnexpectedEOF)
    ensures s != [] && Read(s).Err? ==> SkipFrom(s, pos, depth) == Err(Read(s).error)
    ensures Read(s).Ok? ==>
      var Decoded(wire, k) := Read(s).value;
      && (wire % 8 == 4 && depth == 0 ==> SkipFrom(s, pos, depth) == Err(UnexpectedEndOfGroup))
      && (wire % 8 in {6, 7} ==> SkipFrom(s, pos, depth) == Err(IllegalWireType))
      && (wire % 8 in {0, 2} && Read(s[k..]).Err? ==> SkipFrom(s, pos, depth) == Err(Read(s[k..]).error))
      && (wire % 8 == 1 ==> Overshoots(s, pos, depth, k + 8))
      && (wire % 8 == 5 ==> Overshoots(s, pos, depth, k + 4))
      && (wire % 8 == 2 && Read(s[k..]).Ok? ==>
          Overshoots(s, pos, depth, k + Read(s[k..]).value.size + Read(s[k..]).value.value))
  {
    hide Read, AddInt, Extent;
    if Read(s).Ok? {
      var Decoded(wire, k) := Read(s).value;
      AddIntExact(pos + k, 8);
      AddIntExact(pos + k, 4);
      ExtentOfRead(s[k..]);
      if Read(s[k..]).Ok? {
        LengthEnds(pos + k + Read(s[k..]).value.size, Read(s[k..]).value.value);
      }
    }
  }

  /** A token that ends n bytes on: past the largest int, past the buffer, or neither. */
  ghost predicate Overshoots(s: seq<byte>, pos: nat, depth: nat, n: nat)
    requires pos + |s| <= MAX_INT
  {
    && (pos + n > MAX_INT ==> SkipFrom(s, pos, depth) == Err(InvalidLength))
    && (|s| < n && pos + n <= MAX_INT ==> SkipFrom(s, pos, depth) == if depth == 0 then Ok(pos + n) else Err(UnexpectedEOF))
  }

  lemma ExtentOfRead(s: seq<byte>)
    ensures Read(s).Err? ==> Extent(s, 0) == Err(Read(s).error)
  {
    hide Extent, Digits;
  }

  lemma LengthEnds(x: nat, v: u64)
    requires x <= MAX_INT
    ensures v <= MAX_INT ==> ToInt64(v) == v && AddInt(x, v) == (if x + v <= MAX_INT then x + v else x + v - TWO_64)
    ensures v > MAX_INT ==> ToInt64(v) < 0
  {
  }
}
