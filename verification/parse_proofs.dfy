/**
 What `parse` accepts and returns, stated against the encoders. As
 written, `parse` succeeds on a buffer exactly when the buffer is the
 concatenation of well-formed records' encodings, and then returns those
 records in order; with the corrected readers, encoding any well-formed
 records and parsing gives them back.
 */
module ParseProofs {
  import opened Wrappers
  import opened Bytes
  import opened Panics
  import opened Reader
  import opened KlvParser
  import opened Encoding
  import opened LengthProofs

  /** A buffer that holds `a + b` from `c` on holds `a` at `c` and `b` right after it. */
  lemma SplitSuffix<T>(input: seq<T>, c: nat, a: seq<T>, b: seq<T>)
    requires c <= |input| && input[c..] == a + b
    ensures c + |a| <= |input|
    ensures input[c..c + |a|] == a && input[c + |a|..] == b
  {
    assert input[c..c + |a|] == (a + b)[..|a|];
    assert input[c + |a|..] == (a + b)[|a|..];
  }

  /** A window holding `a + b` holds `a` first and `b` right after it. */
  lemma SplitPair<T>(input: seq<T>, c: nat, a: seq<T>, b: seq<T>)
    requires c + |a| + |b| <= |input|
    requires input[c..c + |a| + |b|] == a + b
    ensures input[c..c + |a|] == a
    ensures input[c + |a|..c + |a| + |b|] == b
  {
    var w := input[c..c + |a| + |b|];
    assert input[c..c + |a|] == w[..|a|];
    assert input[c + |a|..c + |a| + |b|] == w[|a|..];
  }

  /** Three adjacent slices of a sequence make up the slice they span. */
  lemma JoinWindow<T>(s: seq<T>, a: nat, b: nat, c: nat, d: nat)
    requires a <= b <= c <= d <= |s|
    ensures s[a..d] == s[a..b] + s[b..c] + s[c..d]
  {
  }

  /** A window holding `a + b + v` holds each part at its offset. */
  lemma SplitWindow<T>(input: seq<T>, c: nat, a: seq<T>, b: seq<T>, v: seq<T>)
    requires c + |a| + |b| + |v| <= |input|
    requires input[c..c + |a| + |b| + |v|] == a + b + v
    ensures input[c..c + |a|] == a
    ensures input[c + |a|..c + |a| + |b|] == b
    ensures input[c + |a| + |b|..c + |a| + |b| + |v|] == v
  {
    SplitPair(input, c, a + b, v);
    SplitPair(input, c, a, b);
  }

  /** `read_next` succeeds when its three readers do, with the record they read. */
  lemma ReadNextOfReads(d: Dialect, p: Parser, key: Key, length: nat, value: seq<uint8>, p1: Parser, p2: Parser, p3: Parser)
    requires GetKey(p) == Step(Some(key), p1)
    requires LengthIn(d, p1) == Ok(Step(Some(length), p2))
    requires ValueIn(d, p2, length) == Step(Some(value), p3)
    ensures ReadNext(d, p) == Ok((Klv(key, length, value), p3))
  {
  }

  /** Value bytes in place are read back by either dialect's value reader. */
  lemma ValueOfEncoding(d: Dialect, value: seq<uint8>, input: seq<uint8>, c: nat)
    requires c + |value| <= |input| && input[c..c + |value|] == value
    requires d == AsWritten ==> c < |input|
    ensures ValueIn(d, Parser(input, c), |value|) == Step(Some(value), Parser(input, c + |value|))
  {
  }

  /**
   `input` holds the encoding of `klv` from `c` to `next`; as written, an
   empty value is not at the end of the buffer.
   */
  predicate FramedAt(d: Dialect, klv: Klv, input: seq<uint8>, c: nat, next: nat)
  {
    && WellFormedRecord(d, klv)
    && c + |EncodeKlv(d, klv)| == next <= |input|
    && input[c..next] == EncodeKlv(d, klv)
    && (d == AsWritten && klv.length == 0 ==> next < |input|)
  }

  /** `read_next` at cursor `c` reads `klv` and stops at `next`. */
  predicate ReadsAt(d: Dialect, klv: Klv, input: seq<uint8>, c: nat, next: nat)
  {
    ReadNext(d, Parser(input, c)) == Ok((klv, Parser(input, next)))
  }

  /**
   A record's encoding at `c` is read field by field: the key, a length
   field ending at the returned `vc`, and the value from `vc` to `next`.
   */
  lemma FieldsOfEncoding(d: Dialect, klv: Klv, input: seq<uint8>, c: nat, next: nat) returns (vc: nat)
    requires FramedAt(d, klv, input, c, next)
    ensures GetKey(Parser(input, c)) == Step(Some(klv.key), Parser(input, c + KEY_LENGTH))
    ensures LengthIn(d, Parser(input, c + KEY_LENGTH)) == Ok(Step(Some(klv.length), Parser(input, vc)))
    ensures ValueIn(d, Parser(input, vc), klv.length) == Step(Some(klv.value), Parser(input, next))
  {
    var lengthField := EncodeLength(d, klv.length);
    var lc := c + KEY_LENGTH;
    vc := lc + |lengthField|;
    SplitWindow(input, c, klv.key, lengthField, klv.value);
    LengthOfEncoding(d, klv.length, input, lc);
    ValueOfEncoding(d, klv.value, input, vc);
  }

  /** A record read at `c`, then records parsed from where it stops, parse from `c`. */
  lemma ParseFromCons(d: Dialect, klv: Klv, rest: seq<Klv>, input: seq<uint8>, c: nat, next: nat)
    requires ReadsAt(d, klv, input, c, next)
    requires ParseFrom(d, Parser(input, next)) == Ok(rest)
    ensures ParseFrom(d, Parser(input, c)) == Ok([klv] + rest)
  {
  }

  /** A record's encoding at position `c` is read back as that record. */
  lemma ReadNextOfEncoding(d: Dialect, klv: Klv, input: seq<uint8>, c: nat, next: nat)
    requires FramedAt(d, klv, input, c, next)
    ensures ReadsAt(d, klv, input, c, next)
  {
    var vc := FieldsOfEncoding(d, klv, input, c, next);
    assert klv == Klv(klv.key, klv.length, klv.value);
    ReadNextOfReads(d, Parser(input, c), klv.key, klv.length, klv.value, Parser(input, c + KEY_LENGTH), Parser(input, vc), Parser(input, next));
  }

  /**
   What `read_next` returned was read field by field: the key at `c`, a
   length field ending at the returned `vc`, and the value from `vc` to `next`.
   */
  lemma FieldsOfReadNext(d: Dialect, klv: Klv, input: seq<uint8>, c: nat, next: nat) returns (vc: nat)
    requires ReadsAt(d, klv, input, c, next)
    ensures c + KEY_LENGTH < vc && vc + klv.length == next <= |input|
    ensures input[c..c + KEY_LENGTH] == klv.key
    ensures LengthIn(d, Parser(input, c + KEY_LENGTH)) == Ok(Step(Some(klv.length), Parser(input, vc)))
    ensures ValueIn(d, Parser(input, vc), klv.length) == Step(Some(klv.value), Parser(input, next))
  {
    var p := Parser(input, c);
    var length := LengthIn(d, GetKey(p).parser).value;
    vc := length.parser.cursor;
  }

  /**
   Whatever `read_next` reads as written is a well-formed record, and the
   bytes it consumed are that record's encoding; an empty value is only
   read before the end of the buffer.
   */
  lemma ReadNextReadsEncoding(klv: Klv, input: seq<uint8>, c: nat, next: nat)
    requires ReadsAt(AsWritten, klv, input, c, next)
    ensures FramedAt(AsWritten, klv, input, c, next)
  {
    var vc := FieldsOfReadNext(AsWritten, klv, input, c, next);
    FramedOfFields(klv, input, c, vc, next);
  }

  /** The key, length and value the source's readers read back to back make up a framed record. */
  lemma FramedOfFields(klv: Klv, input: seq<uint8>, c: nat, vc: nat, next: nat)
    requires c + KEY_LENGTH <= |input| && input[c..c + KEY_LENGTH] == klv.key
    requires GetLength(Parser(input, c + KEY_LENGTH)) == Ok(Step(Some(klv.length), Parser(input, vc)))
    requires GetValue(Parser(input, vc), klv.length) == Step(Some(klv.value), Parser(input, next))
    ensures FramedAt(AsWritten, klv, input, c, next)
  {
    var lc := c + KEY_LENGTH;
    GetLengthReadsEncoding(Parser(input, lc));
    JoinWindow(input, c, lc, vc, next);
  }

  /** Records encode to more bytes than a key alone. */
  lemma EncodeAllLonger(d: Dialect, klvs: seq<Klv>)
    requires forall i | 0 <= i < |klvs| :: Encodable(d, klvs[i].length)
    ensures |klvs| > 0 ==> |EncodeAll(d, klvs)| > KEY_LENGTH
  {
  }

  /** The head and the tail of a well-formed run are well-formed; as written, an empty head value is not last. */
  lemma WellFormedTail(d: Dialect, klvs: seq<Klv>)
    requires WellFormed(d, klvs) && |klvs| > 0
    ensures WellFormedRecord(d, klvs[0]) && WellFormed(d, klvs[1..])
    ensures d == AsWritten && klvs[0].length == 0 ==> |klvs| > 1
  {
  }

  /** `cs` cuts `input` into the records' encodings, the last cut at the end of the buffer. */
  predicate Framed(d: Dialect, klvs: seq<Klv>, input: seq<uint8>, cs: seq<nat>)
  {
    && |cs| == |klvs| + 1
    && cs[|klvs|] == |input|
    && forall i | 0 <= i < |klvs| :: FramedAt(d, klvs[i], input, cs[i], cs[i + 1])
  }

  /** `cs` are the cursors of successive `read_next` calls, which read the records in order. */
  predicate Traced(d: Dialect, klvs: seq<Klv>, input: seq<uint8>, cs: seq<nat>)
  {
    && |cs| == |klvs| + 1
    && cs[|klvs|] == |input|
    && forall i | 0 <= i < |klvs| :: ReadsAt(d, klvs[i], input, cs[i], cs[i + 1])
  }

  /** Well-formed records encoded from `c` to the end are framed by some cuts starting at `c`. */
  lemma {:induction false} FramedOfEncoding(d: Dialect, klvs: seq<Klv>, input: seq<uint8>, c: nat) returns (cs: seq<nat>)
    requires WellFormed(d, klvs)
    requires c <= |input| && input[c..] == EncodeAll(d, klvs)
    ensures Framed(d, klvs, input, cs) && cs[0] == c
    decreases |klvs|
  {
    if |klvs| == 0 {
      cs := [c];
    } else {
      WellFormedTail(d, klvs);
      var e := EncodeKlv(d, klvs[0]);
      var rest := klvs[1..];
      SplitSuffix(input, c, e, EncodeAll(d, rest));
      EncodeAllLonger(d, rest);
      var tail := FramedOfEncoding(d, rest, input, c + |e|);
      cs := [c] + tail;
      forall i | 0 <= i < |klvs|
        ensures FramedAt(d, klvs[i], input, cs[i], cs[i + 1])
      {
        if i > 0 {
          assert klvs[i] == rest[i - 1] && cs[i] == tail[i - 1] && cs[i + 1] == tail[i];
        }
      }
    }
  }

  /** The first framed record, and the cuts after it framing the others. */
  lemma FramedTail(d: Dialect, klvs: seq<Klv>, input: seq<uint8>, cs: seq<nat>)
    requires Framed(d, klvs, input, cs) && |klvs| > 0
    ensures FramedAt(d, klvs[0], input, cs[0], cs[1])
    ensures Framed(d, klvs[1..], input, cs[1..])
  {
  }

  /** Framed records are well-formed: a record with an empty value is never the last as written. */
  lemma WellFormedOfFramed(d: Dialect, klvs: seq<Klv>, input: seq<uint8>, cs: seq<nat>)
    requires Framed(d, klvs, input, cs)
    ensures WellFormed(d, klvs)
  {
    forall i | 0 <= i < |klvs|
      ensures WellFormedRecord(d, klvs[i])
    {
      assert FramedAt(d, klvs[i], input, cs[i], cs[i + 1]);
    }
    if |klvs| > 0 {
      var last := |klvs| - 1;
      assert FramedAt(d, klvs[last], input, cs[last], cs[last + 1]);
    }
  }

  /** Cuts that frame records from `cs[0]` to the end give back the encoding of those records. */
  lemma {:induction false} EncodingOfFramed(d: Dialect, klvs: seq<Klv>, input: seq<uint8>, cs: seq<nat>)
    requires Framed(d, klvs, input, cs)
    ensures cs[0] <= |input| && WellFormed(d, klvs)
    ensures input[cs[0]..] == EncodeAll(d, klvs)
    decreases |klvs|
  {
    WellFormedOfFramed(d, klvs, input, cs);
    if |klvs| > 0 {
      FramedTail(d, klvs, input, cs);
      EncodingOfFramed(d, klvs[1..], input, cs[1..]);
      assert input[cs[0]..] == input[cs[0]..cs[1]] + input[cs[1]..];
    }
  }

  /** Each framed record is what `read_next` reads at its cut. */
  lemma TracedOfFramed(d: Dialect, klvs: seq<Klv>, input: seq<uint8>, cs: seq<nat>)
    requires Framed(d, klvs, input, cs)
    ensures Traced(d, klvs, input, cs)
  {
    forall i | 0 <= i < |klvs|
      ensures ReadsAt(d, klvs[i], input, cs[i], cs[i + 1])
    {
      ReadNextOfEncoding(d, klvs[i], input, cs[i], cs[i + 1]);
    }
  }

  /** As written, each record `read_next` reads is framed by the cursors around it. */
  lemma FramedOfTraced(klvs: seq<Klv>, input: seq<uint8>, cs: seq<nat>)
    requires Traced(AsWritten, klvs, input, cs)
    ensures Framed(AsWritten, klvs, input, cs)
  {
    forall i | 0 <= i < |klvs|
      ensures FramedAt(AsWritten, klvs[i], input, cs[i], cs[i + 1])
    {
      ReadNextReadsEncoding(klvs[i], input, cs[i], cs[i + 1]);
    }
  }

  /** The first traced record, and the cursors after it tracing the others. */
  lemma TracedTail(d: Dialect, klvs: seq<Klv>, input: seq<uint8>, cs: seq<nat>)
    requires Traced(d, klvs, input, cs) && |klvs| > 0
    ensures ReadsAt(d, klvs[0], input, cs[0], cs[1])
    ensures Traced(d, klvs[1..], input, cs[1..])
  {
  }

  /** Records traced from cursor `cs[0]` on are what `parse` returns from there. */
  lemma {:induction false} ParseFromOfTraced(d: Dialect, klvs: seq<Klv>, input: seq<uint8>, cs: seq<nat>)
    requires Traced(d, klvs, input, cs)
    ensures ParseFrom(d, Parser(input, cs[0])) == Ok(klvs)
    decreases |klvs|
  {
    if |klvs| == 0 {
      assert !HasNext(Parser(input, cs[0]));
    } else {
      TracedTail(d, klvs, input, cs);
      ParseFromOfTraced(d, klvs[1..], input, cs[1..]);
      ParseFromCons(d, klvs[0], klvs[1..], input, cs[0], cs[1]);
      assert [klvs[0]] + klvs[1..] == klvs;
    }
  }

  /** A successful parse from `c` on is traced by the cursors of its `read_next` calls. */
  lemma {:induction false} TracedOfParseFrom(d: Dialect, input: seq<uint8>, c: nat) returns (cs: seq<nat>)
    requires c <= |input| && ParseFrom(d, Parser(input, c)).Ok?
    ensures Traced(d, ParseFrom(d, Parser(input, c)).value, input, cs) && cs[0] == c
    decreases |input| - c
  {
    var p := Parser(input, c);
    var klvs := ParseFrom(d, p).value;
    if !HasNext(p) {
      cs := [c];
    } else {
      var (klv, q) := ReadNext(d, p).value;
      var tail := TracedOfParseFrom(d, input, q.cursor);
      var rest := ParseFrom(d, q).value;
      assert klvs == [klv] + rest;
      cs := [c] + tail;
      forall i | 0 <= i < |klvs|
        ensures ReadsAt(d, klvs[i], input, cs[i], cs[i + 1])
      {
        if i > 0 {
          assert klvs[i] == rest[i - 1] && cs[i] == tail[i - 1] && cs[i + 1] == tail[i];
        }
      }
    }
  }

  /** As written, a successful parse from `c` on returns well-formed records that encode the rest of the buffer. */
  lemma ParseFromReadsEncoding(input: seq<uint8>, c: nat)
    requires c <= |input|
    requires ParseFrom(AsWritten, Parser(input, c)).Ok?
    ensures
      var klvs := ParseFrom(AsWritten, Parser(input, c)).value;
      WellFormed(AsWritten, klvs) && input[c..] == EncodeAll(AsWritten, klvs)
  {
    var klvs := ParseFrom(AsWritten, Parser(input, c)).value;
    var cs := TracedOfParseFrom(AsWritten, input, c);
    FramedOfTraced(klvs, input, cs);
    EncodingOfFramed(AsWritten, klvs, input, cs);
  }

  /** The encodings of well-formed records, placed at `c`, parse back to those records. */
  lemma ParseFromOfEncoding(d: Dialect, klvs: seq<Klv>, input: seq<uint8>, c: nat)
    requires WellFormed(d, klvs)
    requires c <= |input| && input[c..] == EncodeAll(d, klvs)
    ensures ParseFrom(d, Parser(input, c)) == Ok(klvs)
  {
    var cs := FramedOfEncoding(d, klvs, input, c);
    TracedOfFramed(d, klvs, input, cs);
    ParseFromOfTraced(d, klvs, input, cs);
  }

  /**
   The source's `parse` succeeds with `klvs` exactly when the buffer is the
   encodings of `klvs` back to back and `klvs` is well-formed: records come
   out in byte order, and no byte is skipped or left over.
   */
  lemma ParseExactly(bytes: seq<uint8>, klvs: seq<Klv>)
    ensures Parse(bytes) == Ok(klvs) <==> WellFormed(AsWritten, klvs) && bytes == EncodeAll(AsWritten, klvs)
  {
    if Parse(bytes) == Ok(klvs) {
      ParseFromReadsEncoding(bytes, 0);
    }
    if WellFormed(AsWritten, klvs) && bytes == EncodeAll(AsWritten, klvs) {
      ParseFromOfEncoding(AsWritten, klvs, bytes, 0);
    }
  }

  /** With the corrected readers, encoding well-formed records and parsing gives them back. */
  lemma ParseStandardRoundTrip(klvs: seq<Klv>)
    requires WellFormed(Standard, klvs)
    ensures ParseStandard(EncodeAll(Standard, klvs)) == Ok(klvs)
  {
    ParseFromOfEncoding(Standard, klvs, EncodeAll(Standard, klvs), 0);
  }

  lemma {:induction false} EncodeAllWidth(d: Dialect, klvs: seq<Klv>)
    requires forall i | 0 <= i < |klvs| :: Encodable(d, klvs[i].length)
    requires forall i | 0 <= i < |klvs| :: |klvs[i].value| == klvs[i].length
    ensures |EncodeAll(d, klvs)| == TotalWidth(d, klvs)
    decreases |klvs|
  {
    if |klvs| > 0 {
      EncodeAllWidth(d, klvs[1..]);
    }
  }

  /** The widths of the records `parse` returns add up to the length of the buffer. */
  lemma ParseConsumesEveryByte(bytes: seq<uint8>)
    requires Parse(bytes).Ok?
    ensures
      var klvs := Parse(bytes).value;
      && (forall i | 0 <= i < |klvs| :: Encodable(AsWritten, klvs[i].length))
      && |bytes| == TotalWidth(AsWritten, klvs)
  {
    var klvs := Parse(bytes).value;
    ParseExactly(bytes, klvs);
    assert forall i | 0 <= i < |klvs| :: WellFormedRecord(AsWritten, klvs[i]);
    EncodeAllWidth(AsWritten, klvs);
  }

  /**
   Bytes after the last record that are too few for a key are not ignored:
   `parse` fails on the next key, in both dialects.
   */
  lemma TrailingBytesRejected(d: Dialect, klv: Klv, extra: seq<uint8>)
    requires WellFormedRecord(d, klv)
    requires 0 < |extra| < KEY_LENGTH
    ensures ParseFrom(d, New(EncodeKlv(d, klv) + extra)) == Err(Unparsed(KeyField))
  {
    var e := EncodeKlv(d, klv);
    var input := e + extra;
    assert input[0..|e|] == e;
    ReadNextOfEncoding(d, klv, input, 0, |e|);
  }

  /**
   A buffer holding one record with an empty value: the source's `get_value`
   refuses to read it at the end of the buffer, the corrected reader reads it.
   */
  lemma EmptyLastValue(key: Key)
    ensures Parse(key + [0]) == Err(Unparsed(ValueField))
    ensures ParseStandard(key + [0]) == Ok([Klv(key, 0, [])])
  {
    var input := key + [0];
    var klv := Klv(key, 0, []);
    assert input[0..KEY_LENGTH] == key;
    assert input[KEY_LENGTH] == 0;
    assert EncodeKlv(Standard, klv) == input;
    assert input[0..|input|] == input;
    ReadNextOfEncoding(Standard, klv, input, 0, |input|);
    assert ParseFrom(Standard, Parser(input, |input|)) == Ok([]);
    assert [klv] + [] == [klv];
  }
}
