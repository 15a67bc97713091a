/**
 Laws of field reading and of decoding that hold for every message: locality,
 composition of concatenated buffers, agreement with the skipper, and the language
 accepted.  Protocol Buffers Encoding, section "Last One Wins".
 */
module FieldLaws {
  import opened Bits
  import opened Wire
  import opened Varint
  import opened Skipper
  import opened Grammar
  import opened Fields

  // ---------------------------------------------- what the position decides

  /** How a field that would end at absolute index `end`, past its buffer, is reported. */
  function LengthReport(end: nat): Error {
    if end <= MAX_INT then UnexpectedEOF else InvalidLength
  }

  /**
   A span is read exactly when its bytes are there, wherever s stands.  When they are
   not, the index at which the span would end decides the report: one past the largest
   Go int is a negative length.
   */
  lemma SpanFits(s: seq<byte>, pos: nat)
    requires pos + |s| <= MAX_INT
    requires Read(s).Ok?
    ensures var Decoded(v, k) := Read(s).value;
            ReadSpan(s, pos) == if k + v <= |s| then Ok(Span(pos + k, pos + k + v))
                                else Err(LengthReport(pos + k + v))
  {
    hide Read;
    AddIntExact(pos + Read(s).value.size, Read(s).value.value);
  }

  /** The same for an unknown record that the skipper follows past the end of s. */
  lemma UnknownFits(s: seq<byte>, pos: nat)
    requires pos + |s| <= MAX_INT
    requires Skip(s).Ok?
    ensures var n := Skip(s).value;
            ReadUnknown(s, pos) == if n <= |s| then Ok(n) else Err(LengthReport(pos + n))
  {
    hide Skip;
    AddIntExact(pos, Skip(s).value);
  }

  /** The length a field at the head of s announces, when that is more than s holds. */
  function FieldReach(schema: Schema, s: seq<byte>): (r: Option<nat>)
    requires |s| <= MAX_INT
    ensures r.Some? ==> r.value > |s|
  {
    match ReadTag(s)
    case Err(_) => None
    case Ok(Tag(num, wireType, k)) =>
      if num !in schema then
        if Skip(s).Ok? && Skip(s).value > |s| then Some(Skip(s).value) else None
      else if schema[num] == Delimited && wireType == 2 && Read(s[k..]).Ok? then
        var Decoded(v, j) := Read(s[k..]).value;
        if k + j + v > |s| then Some(k + j + v) else None
      else None
  }

  /** The position of a field shows only in how a length that reaches past the end is reported. */
  lemma FieldPosition(schema: Schema, s: seq<byte>, p: nat, q: nat)
    requires p + |s| <= MAX_INT && q + |s| <= MAX_INT
    ensures match FieldReach(schema, s)
            case None => ReadField(schema, s, p) == ReadField(schema, s, q)
            case Some(e) => ReadField(schema, s, p) == Err(LengthReport(p + e))
  {
    hide Read, ReadSpan, ReadUnknown, Skip, LengthReport;
    UnknownPosition(s, p, q);
    if ReadTag(s).Ok? {
      var k := ReadTag(s).value.size;
      if Read(s[k..]).Ok? {
        SpanFits(s[k..], p + k);
        SpanFits(s[k..], q + k);
      } else {
        SpanError(s[k..], p + k);
        SpanError(s[k..], q + k);
      }
    }
  }

  lemma SpanError(s: seq<byte>, pos: nat)
    requires pos + |s| <= MAX_INT
    requires Read(s).Err?
    ensures ReadSpan(s, pos) == Err(Read(s).error)
  {
    hide Read;
  }

  lemma UnknownPosition(s: seq<byte>, p: nat, q: nat)
    requires p + |s| <= MAX_INT && q + |s| <= MAX_INT
    ensures if Skip(s).Ok? && Skip(s).value > |s| then ReadUnknown(s, p) == Err(LengthReport(p + Skip(s).value))
            else ReadUnknown(s, p) == ReadUnknown(s, q)
  {
    hide Skip, LengthReport;
    if Skip(s).Ok? {
      UnknownFits(s, p);
      UnknownFits(s, q);
    }
  }

  /** Equal, or the same receiver left by two reports of one over-long length. */
  predicate SameOutcome<M(==)>(a: Outcome<M>, b: Outcome<M>) {
    a == b || (a.Failed? && b.Failed? && a.msg == b.msg && IsLengthError(a.error) && IsLengthError(b.error))
  }

  predicate IsLengthError(e: Error) {
    e == InvalidLength || e == UnexpectedEOF
  }

  /** How far from the head of s the field reaches at which decoding stops for want of bytes. */
  function Overrun<M>(schema: Schema, apply: (M, Field) -> Outcome<M>, m: M, s: seq<byte>): (r: Option<nat>)
    requires |s| <= MAX_INT
    ensures r.Some? ==> r.value > |s|
    decreases |s|
  {
    if s == [] then None
    else
      match ReadField(schema, s, 0)
      case Err(_) => FieldReach(schema, s)
      case Ok(Parsed(f, n)) =>
        if apply(m, f).Failed? then None
        else
          match Overrun(schema, apply, apply(m, f).msg, s[n..])
          case None => None
          case Some(e) => Some(n + e)
  }

  /**
   The position of a buffer shows in nothing but the report of such a field, and there
   only as the side of the largest Go int on which the field would end.
   */
  lemma {:induction false} DecodePosition<M>(schema: Schema, apply: (M, Field) -> Outcome<M>, m: M,
                                             s: seq<byte>, p: nat, q: nat)
    requires p + |s| <= MAX_INT && q + |s| <= MAX_INT
    ensures Decode(schema, apply, m, s, p).msg == Decode(schema, apply, m, s, q).msg
    ensures match Overrun(schema, apply, m, s)
            case None => Decode(schema, apply, m, s, p) == Decode(schema, apply, m, s, q)
            case Some(e) => Decode(schema, apply, m, s, p) == Failed(Decode(schema, apply, m, s, p).msg, LengthReport(p + e))
    decreases |s|
  {
    hide ReadField, FieldReach, LengthReport;
    if s != [] {
      FieldPosition(schema, s, p, q);
      FieldPosition(schema, s, q, p);
      FieldPosition(schema, s, p, 0);
      FieldPosition(schema, s, 0, p);
      if ReadField(schema, s, p).Ok? {
        var Parsed(f, n) := ReadField(schema, s, p).value;
        if apply(m, f).Done? {
          DecodePosition(schema, apply, apply(m, f).msg, s[n..], p + n, q + n);
        }
      }
    }
  }

  /** When a buffer decodes alike at two positions, report included. */
  lemma PositionsAgreeExactlyWhen<M>(schema: Schema, apply: (M, Field) -> Outcome<M>, m: M,
                                     s: seq<byte>, p: nat, q: nat)
    requires p + |s| <= MAX_INT && q + |s| <= MAX_INT
    ensures SameOutcome(Decode(schema, apply, m, s, p), Decode(schema, apply, m, s, q))
    ensures Decode(schema, apply, m, s, p) == Decode(schema, apply, m, s, q)
       <==> (Overrun(schema, apply, m, s).None?
             || var e := Overrun(schema, apply, m, s).value; (p + e <= MAX_INT <==> q + e <= MAX_INT))
  {
    hide Decode, Overrun;
    DecodePosition(schema, apply, m, s, p, q);
    DecodePosition(schema, apply, m, s, q, p);
  }

  // --------------------------------------------------------------- locality

  lemma TagLocal(s: seq<byte>, t: seq<byte>)
    requires ReadTag(s).Ok?
    ensures ReadTag(s + t) == ReadTag(s)
  {
    hide Read;
    ReadLocal(s, t);
  }

  lemma SpanLocal(s: seq<byte>, t: seq<byte>, pos: nat)
    requires pos + |s + t| <= MAX_INT
    requires ReadSpan(s, pos).Ok?
    ensures ReadSpan(s + t, pos) == ReadSpan(s, pos)
  {
    hide Read;
    ReadLocal(s, t);
    SpanFits(s, pos);
    SpanFits(s + t, pos);
  }

  lemma SkipLocal(s: seq<byte>, t: seq<byte>)
    requires |s + t| <= MAX_INT
    requires Skip(s).Ok? && Skip(s).value <= |s|
    ensures Skip(s + t) == Skip(s)
  {
    hide Skip;
    var n := Skip(s).value;
    assert (s + t)[..n] == s[..n];
    SkipRecognisesRecords(s, n);
    SkipRecognisesRecords(s + t, n);
  }

  lemma UnknownLocal(s: seq<byte>, t: seq<byte>, pos: nat)
    requires pos + |s + t| <= MAX_INT
    requires ReadUnknown(s, pos).Ok?
    ensures ReadUnknown(s + t, pos) == ReadUnknown(s, pos)
  {
    hide Skip;
    UnknownFits(s, pos);
    SkipLocal(s, t);
    UnknownFits(s + t, pos);
  }

  /** Reading a field looks at no byte after it. */
  lemma FieldLocal(schema: Schema, s: seq<byte>, t: seq<byte>, pos: nat)
    requires pos + |s + t| <= MAX_INT
    requires ReadField(schema, s, pos).Ok?
    ensures ReadField(schema, s + t, pos) == ReadField(schema, s, pos)
  {
    hide Read, ReadSpan, ReadUnknown, ReadTag;
    TagLocal(s, t);
    var Tag(num, wireType, k) := ReadTag(s).value;
    assert (s + t)[k..] == s[k..] + t;
    if num !in schema {
      UnknownLocal(s, t, pos);
      var n := ReadUnknown(s, pos).value;
      assert (s + t)[..n] == s[..n];
    } else if schema[num] == Delimited {
      SpanLocal(s[k..], t, pos + k);
      var Span(start, end) := ReadSpan(s[k..], pos + k).value;
      assert (s + t)[start - pos..end - pos] == s[start - pos..end - pos];
    } else {
      ReadLocal(s[k..], t);
    }
  }

  // ------------------------------------------------------------ composition

  /** Decoding a + b is decoding a, then b into the result. */
  lemma {:induction false} DecodeConcat<M>(schema: Schema, apply: (M, Field) -> Outcome<M>, m: M,
                                           a: seq<byte>, b: seq<byte>, pos: nat)
    requires pos + |a + b| <= MAX_INT
    ensures var first := Decode(schema, apply, m, a, pos);
            first.Done? ==> Decode(schema, apply, m, a + b, pos) == Decode(schema, apply, first.msg, b, pos + |a|)
    decreases |a|
  {
    hide ReadField;
    if a == [] {
      assert a + b == b;
    } else if ReadField(schema, a, pos).Ok? {
      var Parsed(f, n) := ReadField(schema, a, pos).value;
      FieldLocal(schema, a, b, pos);
      assert (a + b)[n..] == a[n..] + b;
      if apply(m, f).Done? {
        DecodeConcat(schema, apply, apply(m, f).msg, a[n..], b, pos + n);
      }
    }
  }

  /** No field of b reaches past the largest Go int only because b stands after `shift` bytes. */
  predicate ReportsAlike<M>(schema: Schema, apply: (M, Field) -> Outcome<M>, m: M, b: seq<byte>, shift: nat)
    requires |b| <= MAX_INT
  {
    match Overrun(schema, apply, m, b)
    case None => true
    case Some(e) => !(e <= MAX_INT < shift + e)
  }

  /** Joining two buffers is decoding one after the other, up to the report of an over-long length. */
  lemma JoinedExactlyWhen<M>(schema: Schema, apply: (M, Field) -> Outcome<M>, m: M, a: seq<byte>, b: seq<byte>)
    requires |a + b| <= MAX_INT
    requires Decode(schema, apply, m, a, 0).Done?
    ensures var first := Decode(schema, apply, m, a, 0).msg;
            var joined, apart := Decode(schema, apply, m, a + b, 0), Decode(schema, apply, first, b, 0);
            && joined == Decode(schema, apply, first, b, |a|)
            && SameOutcome(joined, apart)
            && (joined == apart <==> ReportsAlike(schema, apply, first, b, |a|))
  {
    hide Decode, Overrun;
    DecodeConcat(schema, apply, m, a, b, 0);
    PositionsAgreeExactlyWhen(schema, apply, Decode(schema, apply, m, a, 0).msg, b, |a|, 0);
  }

  /** One pass of the loop that succeeds, at index i of a whole buffer. */
  lemma DecodeStep<M>(schema: Schema, apply: (M, Field) -> Outcome<M>, m: M, dAtA: seq<byte>, i: nat)
    requires i < |dAtA| <= MAX_INT
    requires ReadField(schema, dAtA[i..], i).Ok?
    requires apply(m, ReadField(schema, dAtA[i..], i).value.field).Done?
    ensures var Parsed(f, n) := ReadField(schema, dAtA[i..], i).value;
            Decode(schema, apply, m, dAtA[i..], i) == Decode(schema, apply, apply(m, f).msg, dAtA[i + n..], i + n)
  {
    hide ReadField;
    var n := ReadField(schema, dAtA[i..], i).value.size;
    assert dAtA[i..][n..] == dAtA[i + n..];
  }

  /** A buffer that starts with one whole field. */
  lemma DecodeFirst<M>(schema: Schema, apply: (M, Field) -> Outcome<M>, m: M,
                       a: seq<byte>, b: seq<byte>, pos: nat, f: Field)
    requires pos + |a + b| <= MAX_INT
    requires ReadField(schema, a, pos) == Ok(Parsed(f, |a|))
    requires apply(m, f).Done?
    ensures Decode(schema, apply, m, a + b, pos) == Decode(schema, apply, apply(m, f).msg, b, pos + |a|)
  {
    hide ReadField;
    FieldLocal(schema, a, b, pos);
    assert (a + b)[|a|..] == b;
    assert a + b != [];
  }

  // ------------------------------------------------- agreement with the skipper

  /** Whatever the schema, a field that is read is one record of the grammar. */
  lemma FieldIsRecord(schema: Schema, s: seq<byte>, pos: nat)
    requires pos + |s| <= MAX_INT
    requires ReadField(schema, s, pos).Ok?
    ensures Skip(s) == Ok(ReadField(schema, s, pos).value.size)
    ensures IsRecord(s[..ReadField(schema, s, pos).value.size])
  {
    var n := ReadField(schema, s, pos).value.size;
    assert Skip(s) == Ok(n) by { FieldSkips(schema, s, pos); }
    SkipRecognisesRecords(s, n);
  }

  lemma FieldSkips(schema: Schema, s: seq<byte>, pos: nat)
    requires pos + |s| <= MAX_INT
    requires ReadField(schema, s, pos).Ok?
    ensures Skip(s) == Ok(ReadField(schema, s, pos).value.size)
  {
    hide Extent, Digits, ReadSpan, ReadUnknown, Skip;
    var Parsed(f, n) := ReadField(schema, s, pos).value;
    var Tag(num, wireType, k) := ReadTag(s).value;
    if num !in schema {
      UnknownIsSkip(s, pos);
    } else if schema[num] == Delimited {
      SpanToken(s, k, pos);
      SkipStep(s, 0, 0, 2, n);
      SkipIsSkipFrom(s);
    } else {
      NumberToken(s, k);
      SkipStep(s, 0, 0, 0, n);
      SkipIsSkipFrom(s);
    }
  }

  lemma SkipIsSkipFrom(s: seq<byte>)
    requires |s| <= MAX_INT
    ensures Skip(s) == SkipFrom(s, 0, 0)
  {
  }

  lemma UnknownIsSkip(s: seq<byte>, pos: nat)
    requires pos + |s| <= MAX_INT
    requires ReadUnknown(s, pos).Ok?
    ensures Skip(s) == ReadUnknown(s, pos)
  {
    hide Skip;
  }

  lemma SpanToken(s: seq<byte>, k: nat, pos: nat)
    requires pos + |s| <= MAX_INT
    requires Read(s).Ok? && Read(s).value.size == k && Read(s).value.value % 8 == 2
    requires ReadSpan(s[k..], pos + k).Ok?
    ensures ReadToken(s, 0) == Ok(Token(2, ReadSpan(s[k..], pos + k).value.end - pos))
  {
    hide Read;
    var Decoded(v, m) := Read(s[k..]).value;
    SpanFits(s[k..], pos + k);
    AddIntExact(k + m, v);
  }

  lemma NumberToken(s: seq<byte>, k: nat)
    requires |s| <= MAX_INT
    requires Read(s).Ok? && Read(s).value.size == k && Read(s).value.value % 8 == 0
    requires Read(s[k..]).Ok?
    ensures ReadToken(s, 0) == Ok(Token(0, k + Read(s[k..]).value.size))
  {
    hide Extent;
  }

  /** Known or unknown to a message, a field takes the same bytes. */
  lemma SchemasAgreeOnSize(a: Schema, b: Schema, s: seq<byte>, pos: nat)
    requires pos + |s| <= MAX_INT
    requires ReadField(a, s, pos).Ok? && ReadField(b, s, pos).Ok?
    ensures ReadField(a, s, pos).value.size == ReadField(b, s, pos).value.size
  {
    hide ReadField;
    FieldIsRecord(a, s, pos);
    FieldIsRecord(b, s, pos);
  }

  // --------------------------------------------------------------- language

  function WireTypeOf(kind: Kind): nat {
    if kind == Delimited then 2 else 0
  }

  /** The tag at the head of s may stand at top level and suits the fields the message knows. */
  predicate TagSuits(schema: Schema, s: seq<byte>) {
    && ReadTag(s).Ok?
    && (ReadTag(s).value.num in schema ==> ReadTag(s).value.wireType == WireTypeOf(schema[ReadTag(s).value.num]))
  }

  /** A sequence of whole records of the grammar with suitable tags. */
  ghost predicate Records(schema: Schema, s: seq<byte>)
    decreases |s|
  {
    s == [] || (TagSuits(schema, s) && exists n :: 1 <= n <= |s| && IsRecord(s[..n]) && Records(schema, s[n..]))
  }

  lemma FieldTagSuits(schema: Schema, s: seq<byte>, pos: nat)
    requires pos + |s| <= MAX_INT
    requires ReadField(schema, s, pos).Ok?
    ensures TagSuits(schema, s)
  {
    hide ReadTag, ReadSpan, ReadUnknown;
  }

  /** Every buffer that a message accepts is such a sequence. */
  lemma {:induction false} AcceptedIsRecords<M>(schema: Schema, apply: (M, Field) -> Outcome<M>, m: M,
                                                s: seq<byte>, pos: nat)
    requires pos + |s| <= MAX_INT
    requires Decode(schema, apply, m, s, pos).Done?
    ensures Records(schema, s)
    decreases |s|
  {
    hide IsRecord, TagSuits, ReadField;
    if s != [] {
      var Parsed(f, n) := ReadField(schema, s, pos).value;
      FieldIsRecord(schema, s, pos);
      FieldTagSuits(schema, s, pos);
      AcceptedIsRecords(schema, apply, apply(m, f).msg, s[n..], pos + n);
    }
  }

  /** A record with a suitable tag is read as a field of the same size. */
  lemma RecordIsField(schema: Schema, s: seq<byte>, n: nat, pos: nat)
    requires pos + |s| <= MAX_INT
    requires TagSuits(schema, s)
    requires 1 <= n <= |s| && IsRecord(s[..n])
    ensures ReadField(schema, s, pos).Ok? && ReadField(schema, s, pos).value.size == n
  {
    hide Extent, Digits, Skip, ReadSpan, ReadUnknown, IsRecord, IsPayload;
    var Tag(num, wireType, k) := ReadTag(s).value;
    if num !in schema {
      RecordIsUnknownField(schema, s, n, pos);
    } else {
      PayloadOfRecord(s, n);
      if wireType == 2 {
        DelimitedPayload(s[k..], n - k, pos + k);
      } else {
        NumberPayload(s[k..], n - k);
      }
    }
  }

  /** The payload of a record that is not a group. */
  lemma PayloadOfRecord(s: seq<byte>, n: nat)
    requires n <= |s| <= MAX_INT && IsRecord(s[..n])
    requires Read(s).Ok? && Read(s).value.value % 8 in {0, 2}
    ensures var Decoded(wire, k) := Read(s).value; k <= n && IsPayload(wire % 8, s[k..][..n - k])
  {
    hide Extent, Digits, IsRecord, IsPayload, ReadToken, Skip;
    SkipRecognisesRecords(s, n);
    SkipIsSkipFrom(s);
    var k, m, wireType := SkipUnstep(s, 0, 0);
    assert s == s[..k] + s[k..];
    ReadOfPrefixed(s[..k], s[k..]);
    assert s[k..n] == s[k..][..n - k];
  }

  lemma DelimitedPayload(s: seq<byte>, n: nat, pos: nat)
    requires pos + |s| <= MAX_INT && n <= |s|
    requires IsPayload(2, s[..n])
    ensures ReadSpan(s, pos).Ok? && ReadSpan(s, pos).value.end == pos + n
  {
    hide Read, ReadSpan;
    assert s == s[..n] + s[n..];
    ReadLocal(s[..n], s[n..]);
    SpanFits(s, pos);
  }

  lemma NumberPayload(s: seq<byte>, n: nat)
    requires n <= |s| && IsPayload(0, s[..n])
    ensures Read(s).Ok? && Read(s).value.size == n
  {
    hide Extent, Digits;
    assert s == s[..n] + s[n..];
    ReadLocal(s[..n], s[n..]);
  }

  /** An unknown field is read wherever a record with a top-level tag stands. */
  lemma RecordIsUnknownField(schema: Schema, s: seq<byte>, n: nat, pos: nat)
    requires pos + |s| <= MAX_INT
    requires ReadTag(s).Ok? && ReadTag(s).value.num !in schema
    requires 1 <= n <= |s| && IsRecord(s[..n])
    ensures ReadField(schema, s, pos) == Ok(Parsed(UnknownField(s[..n]), n))
  {
    hide ReadTag, Skip, ReadUnknown, IsRecord;
    SkipRecognisesRecords(s, n);
    UnknownFits(s, pos);
  }

  /** The fields of s, up to the first that cannot be read. */
  function FieldsOf(schema: Schema, s: seq<byte>, pos: nat): seq<Field>
    requires pos + |s| <= MAX_INT
    decreases |s|
  {
    if s == [] then []
    else
      match ReadField(schema, s, pos)
      case Err(_) => []
      case Ok(Parsed(f, n)) => [f] + FieldsOf(schema, s[n..], pos + n)
  }

  predicate AllGood(good: Field -> bool, fs: seq<Field>) {
    forall i :: 0 <= i < |fs| ==> good(fs[i])
  }

  lemma AllGoodCons(good: Field -> bool, f: Field, fs: seq<Field>)
    ensures AllGood(good, [f] + fs) <==> good(f) && AllGood(good, fs)
  {
    assert ([f] + fs)[0] == f;
    assert forall i :: 0 <= i < |fs| ==> ([f] + fs)[i + 1] == fs[i];
  }

  /** Whether the records go on is decided after the field that is read. */
  lemma RecordsStep(schema: Schema, s: seq<byte>, pos: nat)
    requires pos + |s| <= MAX_INT
    requires ReadField(schema, s, pos).Ok?
    ensures Records(schema, s) <==> Records(schema, s[ReadField(schema, s, pos).value.size..])
  {
    hide ReadField, TagSuits, IsRecord;
    var n := ReadField(schema, s, pos).value.size;
    FieldIsRecord(schema, s, pos);
    FieldTagSuits(schema, s, pos);
    if Records(schema, s) {
      var k :| 1 <= k <= |s| && IsRecord(s[..k]) && Records(schema, s[k..]);
      RecordIsField(schema, s, k, pos);
    }
  }

  /** A message that refuses the fields which are not `good`, whatever it holds. */
  lemma {:induction false} AcceptsExactly<M(!new)>(schema: Schema, apply: (M, Field) -> Outcome<M>, good: Field -> bool,
                                                   m: M, s: seq<byte>, pos: nat)
    requires pos + |s| <= MAX_INT
    requires forall m: M, f: Field :: apply(m, f).Done? <==> good(f)
    ensures Decode(schema, apply, m, s, pos).Done? <==> Records(schema, s) && AllGood(good, FieldsOf(schema, s, pos))
    decreases |s|
  {
    hide ReadField, TagSuits, IsRecord, AllGood;
    if s == [] {
      assert AllGood(good, []) by { NoFields(good); }
    } else if ReadField(schema, s, pos).Ok? {
      var Parsed(f, n) := ReadField(schema, s, pos).value;
      RecordsStep(schema, s, pos);
      AllGoodCons(good, f, FieldsOf(schema, s[n..], pos + n));
      if good(f) {
        AcceptsExactly(schema, apply, good, apply(m, f).msg, s[n..], pos + n);
      }
    } else if Records(schema, s) {
      var k :| 1 <= k <= |s| && IsRecord(s[..k]) && Records(schema, s[k..]);
      RecordIsField(schema, s, k, pos);
    }
  }

  lemma NoFields(good: Field -> bool)
    ensures AllGood(good, [])
  {
  }

  /** A message whose fields are never refused accepts exactly those sequences. */
  lemma AcceptsExactlyRecords<M(!new)>(schema: Schema, apply: (M, Field) -> Outcome<M>, m: M, s: seq<byte>, pos: nat)
    requires pos + |s| <= MAX_INT
    requires forall m: M, f: Field :: apply(m, f).Done?
    ensures Decode(schema, apply, m, s, pos).Done? <==> Records(schema, s)
  {
    hide Decode, Records, FieldsOf;
    AcceptsExactly(schema, apply, _ => true, m, s, pos);
  }

  // ---------------------------------------------------------------- truncation

  /** A record cut short does not start with a whole record. */
  lemma CutRecordIsNoRecords(schema: Schema, r: seq<byte>, cut: nat)
    requires |r| <= MAX_INT && IsRecord(r)
    requires 0 < cut < |r|
    ensures !Records(schema, r[..cut])
  {
    hide IsRecord, TagSuits;
    var s := r[..cut];
    if Records(schema, s) {
      var n :| 1 <= n <= |s| && IsRecord(s[..n]) && Records(schema, s[n..]);
      assert r == s[..n] + r[n..];
      RecordsArePrefixFree(s[..n], r[n..]);
      assert false;
    }
  }

  /** No message accepts a buffer that ends inside a record. */
  lemma TruncationIsRefused<M>(schema: Schema, apply: (M, Field) -> Outcome<M>, m: M, a: seq<byte>, r: seq<byte>, cut: nat)
    requires |a + r| <= MAX_INT
    requires Decode(schema, apply, m, a, 0).Done?
    requires IsRecord(r) && 0 < cut < |r|
    ensures Decode(schema, apply, m, a + r[..cut], 0).Failed?
  {
    hide IsRecord, Records, Decode;
    var m' := Decode(schema, apply, m, a, 0).msg;
    DecodeConcat(schema, apply, m, a, r[..cut], 0);
    CutRecordIsNoRecords(schema, r, cut);
    if Decode(schema, apply, m', r[..cut], |a|).Done? {
      AcceptedIsRecords(schema, apply, m', r[..cut], |a|);
    }
  }

  // ------------------------------------------------------- fields on the wire

  /** A tag that may stand at top level, by its wire value: field number and wire type. */
  predicate TagOf(t: seq<byte>, num: int, wireType: nat) {
    && IsVarint(t)
    && 0 < num < TWO_31 && wireType != 4
    && Read(t).value.value % 8 == wireType
    && (Read(t).value.value / 8) % TWO_32 == num
  }

  /** What the checks on a tag answer, from its wire value. */
  lemma TagExactly(s: seq<byte>)
    requires Read(s).Ok?
    ensures var Decoded(wire, k) := Read(s).value;
            var low := (wire / 8) % TWO_32;
            ReadTag(s) == if wire % 8 == 4 then Err(EndGroupForNonGroup)
                          else if low == 0 || low >= TWO_31 then Err(IllegalTag)
                          else Ok(Tag(low, wire % 8, k))
  {
    hide Read;
  }

  lemma TagReads(t: seq<byte>, rest: seq<byte>, num: int, wireType: nat)
    requires TagOf(t, num, wireType)
    ensures ReadTag(t + rest) == Ok(Tag(num, wireType, |t|))
    ensures (t + rest)[|t|..] == rest
  {
    hide Read, ReadTag, IsVarint;
    ReadOfPrefixed(t, rest);
    TagExactly(t + rest);
  }

  /** A length-delimited field, however its tag and its length are written. */
  lemma DelimitedReads(schema: Schema, t: seq<byte>, l: seq<byte>, payload: seq<byte>, pos: nat, num: int)
    requires TagOf(t, num, 2) && num in schema && schema[num] == Delimited
    requires IsVarint(l) && Read(l).value.value == |payload|
    requires pos + |t + l + payload| <= MAX_INT
    ensures ReadField(schema, t + l + payload, pos) == Ok(Parsed(DelimitedField(num, payload), |t + l + payload|))
  {
    hide Read, ReadTag, ReadSpan, TagOf, IsVarint;
    var s := t + l + payload;
    assert s == t + (l + payload);
    TagReads(t, l + payload, num, 2);
    ReadOfPrefixed(l, payload);
    SpanFits(l + payload, pos + |t|);
    assert s[|t| + |l|..|s|] == payload;
  }

  /** A number field has the value of its varint, zero and overlong ones included. */
  lemma NumberReads(schema: Schema, t: seq<byte>, v: seq<byte>, pos: nat, num: int)
    requires TagOf(t, num, 0) && num in schema && schema[num] == Number
    requires IsVarint(v)
    requires pos + |t + v| <= MAX_INT
    ensures ReadField(schema, t + v, pos) == Ok(Parsed(NumberField(num, Read(v).value.value), |t + v|))
  {
    hide Read, ReadTag, TagOf, IsVarint;
    TagReads(t, v, num, 0);
    ReadOfPrefixed(v, []);
    assert v + [] == v;
  }

  /** A whole record whose field number, read off the wire, is none of the known ones. */
  ghost predicate StrangeRecord(r: seq<byte>, known: set<int>) {
    && IsRecord(r)
    && Read(r).Ok?
    && Read(r).value.value % 8 != 4
    && 0 < (Read(r).value.value / 8) % TWO_32 < TWO_31
    && (Read(r).value.value / 8) % TWO_32 !in known
  }

  lemma StrangeReads(schema: Schema, r: seq<byte>, pos: nat)
    requires StrangeRecord(r, schema.Keys)
    requires pos + |r| <= MAX_INT
    ensures ReadField(schema, r, pos) == Ok(Parsed(UnknownField(r), |r|))
  {
    hide Read, ReadTag, IsRecord;
    TagExactly(r);
    assert r != [] by { ReadRefusedExactlyWhen(r); }
    assert r[..|r|] == r;
    RecordIsUnknownField(schema, r, |r|, pos);
  }

  /** A buffer that starts with one whole field, whether the receiver takes it or not. */
  lemma DecodeHead<M>(schema: Schema, apply: (M, Field) -> Outcome<M>, m: M,
                      a: seq<byte>, rest: seq<byte>, pos: nat, f: Field)
    requires pos + |a + rest| <= MAX_INT
    requires ReadField(schema, a, pos) == Ok(Parsed(f, |a|))
    ensures Decode(schema, apply, m, a + rest, pos)
         == match apply(m, f)
            case Failed(m', e) => Failed(m', e)
            case Done(m') => Decode(schema, apply, m', rest, pos + |a|)
  {
    hide ReadField;
    FieldLocal(schema, a, rest, pos);
    assert (a + rest)[|a|..] == rest;
    assert a + rest != [];
  }

  lemma DecodeEmpty<M>(schema: Schema, apply: (M, Field) -> Outcome<M>, m: M, pos: nat)
    requires pos <= MAX_INT
    ensures Decode(schema, apply, m, [], pos) == Done(m)
  {
  }

  /** Every way in which a message refuses the field at the head of a buffer, with its error. */
  lemma HeadRefusals<M>(schema: Schema, apply: (M, Field) -> Outcome<M>, m: M, s: seq<byte>, pos: nat)
    requires s != [] && pos + |s| <= MAX_INT
    ensures Read(s).Err? ==> Decode(schema, apply, m, s, pos) == Failed(m, Read(s).error)
    ensures Read(s).Ok? ==>
      var Decoded(wire, k) := Read(s).value;
      var num, outcome := (wire / 8) % TWO_32, Decode(schema, apply, m, s, pos);
      && (wire % 8 == 4 ==> outcome == Failed(m, EndGroupForNonGroup))
      && (wire % 8 != 4 && (num == 0 || num >= TWO_31) ==> outcome == Failed(m, IllegalTag))
      && (wire % 8 != 4 && 0 < num < TWO_31 ==>
          if num !in schema then Skip(s).Err? ==> outcome == Failed(m, Skip(s).error)
          else if wire % 8 != WireTypeOf(schema[num]) then outcome == Failed(m, WrongWireType)
          else Read(s[k..]).Err? ==> outcome == Failed(m, Read(s[k..]).error))
  {
    hide Read, ReadTag, ReadSpan, Skip;
    if Read(s).Ok? {
      TagExactly(s);
      var k := Read(s).value.size;
      if Read(s[k..]).Err? {
        SpanError(s[k..], pos + k);
      }
    } else {
      TagError(s);
    }
  }

  lemma TagError(s: seq<byte>)
    requires Read(s).Err?
    ensures ReadTag(s) == Err(Read(s).error)
  {
    hide Read;
  }

  lemma FieldsOfFirst(schema: Schema, a: seq<byte>, b: seq<byte>, pos: nat, f: Field)
    requires pos + |a + b| <= MAX_INT
    requires ReadField(schema, a, pos) == Ok(Parsed(f, |a|))
    ensures FieldsOf(schema, a + b, pos) == [f] + FieldsOf(schema, b, pos + |a|)
  {
    hide ReadField;
    FieldLocal(schema, a, b, pos);
    assert (a + b)[|a|..] == b;
    assert a + b != [];
  }

  // -------------------------------------------------------------- field numbers

  /** Two wire values with one wire type and field numbers equal in their low 32 bits. */
  predicate SameLowBits(a: u64, b: u64) {
    a % 8 == b % 8 && (a / 8) % TWO_32 == (b / 8) % TWO_32
  }

  /** Such tags are read as the same tag, or refused alike. */
  lemma FieldNumberTruncates(s: seq<byte>, t: seq<byte>)
    requires Read(s).Ok? && Read(t).Ok?
    requires SameLowBits(Read(s).value.value, Read(t).value.value)
    ensures ReadTag(s).Err? ==> ReadTag(t) == ReadTag(s)
    ensures ReadTag(s).Ok? ==> ReadTag(t) == Ok(ReadTag(s).value.(size := Read(t).value.size))
  {
    hide Read;
  }

  /** A known field is the same field under every such tag; only its size follows the tag's. */
  lemma AliasedFieldReads(schema: Schema, a: seq<byte>, b: seq<byte>, rest: seq<byte>, pos: nat)
    requires IsVarint(a) && IsVarint(b) && SameLowBits(Read(a).value.value, Read(b).value.value)
    requires pos + |a + rest| <= MAX_INT && pos + |b + rest| <= MAX_INT
    requires ReadField(schema, a + rest, pos).Ok? && !ReadField(schema, a + rest, pos).value.field.UnknownField?
    ensures var Parsed(f, n) := ReadField(schema, a + rest, pos).value;
            var there := ReadField(schema, b + rest, pos);
            there.Ok? && there.value.field == f && there.value.size + |a| == n + |b|
  {
    hide Read, ReadTag, ReadSpan, ReadUnknown, IsVarint, SameLowBits;
    ReadOfPrefixed(a, rest);
    ReadOfPrefixed(b, rest);
    FieldNumberTruncates(a + rest, b + rest);
    TagSize(a + rest);
    var Tag(num, wireType, k) := ReadTag(a + rest).value;
    if schema[num] == Delimited {
      SpanShifts(rest, pos + |a|, pos + |b|);
      var Span(start, end) := ReadSpan(rest, pos + |a|).value;
      var from, to := start - pos - |a|, end - pos - |a|;
      SliceBehind(a, rest, from, to);
      SliceBehind(b, rest, from, to);
    }
  }

  lemma SliceBehind(a: seq<byte>, rest: seq<byte>, from: nat, to: nat)
    requires from <= to <= |rest|
    ensures (a + rest)[|a| + from..|a| + to] == rest[from..to]
  {
  }

  lemma TagSize(s: seq<byte>)
    requires ReadTag(s).Ok?
    ensures Read(s).Ok? && ReadTag(s).value.size == Read(s).value.size
  {
    hide Read;
  }

  lemma SpanShifts(s: seq<byte>, p: nat, q: nat)
    requires p + |s| <= MAX_INT && q + |s| <= MAX_INT
    requires ReadSpan(s, p).Ok?
    ensures ReadSpan(s, q) == Ok(Span(ReadSpan(s, p).value.start - p + q, ReadSpan(s, p).value.end - p + q))
  {
    hide Read;
    SpanFits(s, p);
    SpanFits(s, q);
  }
}
