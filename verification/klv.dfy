/**
 The top-level KLV loop: `read_next` reads key, length and value in turn
 and `parse` repeats it while bytes are left. The loop is shared by two
 dialects: `AsWritten` uses the source's field readers, `Standard` the
 corrected ones.
 */
module KlvParser {
  import opened Wrappers
  import opened Bytes
  import opened Panics
  import opened Reader

  /** One decoded record: the source's `Klv`. */
  datatype Klv = Klv(key: Key, length: nat, value: seq<uint8>)

  /** Which length and value readers the loop uses. */
  datatype Dialect = AsWritten | Standard

  function LengthIn(d: Dialect, p: Parser): (r: Result<Step<nat>, Failure>)
    ensures r.Ok? && r.value.out.Some? ==>
      && r.value.parser.input == p.input
      && p.cursor < r.value.parser.cursor <= |p.input|
  {
    match d
    case AsWritten => GetLength(p)
    case Standard => GetLengthStandard(p)
  }

  function ValueIn(d: Dialect, p: Parser, length: nat): (r: Step<seq<uint8>>)
    ensures r.out.Some? ==>
      && p.cursor + length <= |p.input|
      && r.out.value == p.input[p.cursor..p.cursor + length]
      && r.parser == Parser(p.input, p.cursor + length)
  {
    match d
    case AsWritten => GetValue(p, length)
    case Standard => GetValueStandard(p, length)
  }

  /**
   `read_next`: key, then length, then value; each `None` is the panic of
   the `expect` that unwraps it, and a panic inside a reader propagates.
   */
  function ReadNext(d: Dialect, p: Parser): (r: Result<(Klv, Parser), Failure>)
    ensures r.Ok? ==>
      var (klv, q) := r.value;
      && q.input == p.input
      && p.cursor + KEY_LENGTH + 1 + klv.length <= q.cursor <= |p.input|
      && klv.key == p.input[p.cursor..p.cursor + KEY_LENGTH]
      && |klv.value| == klv.length
      && klv.value == p.input[q.cursor - klv.length..q.cursor]
    ensures p.cursor + KEY_LENGTH > |p.input| ==> r == Err(Unparsed(KeyField))
    ensures p.cursor + KEY_LENGTH == |p.input| ==> r == Err(Unparsed(LengthField))
  {
    var key := GetKey(p);
    if key.out.None? then Err(Unparsed(KeyField))
    else
      match LengthIn(d, key.parser)
      case Err(e) => Err(e)
      case Ok(length) =>
        if length.out.None? then Err(Unparsed(LengthField))
        else
          var value := ValueIn(d, length.parser, length.out.value);
          if value.out.None? then Err(Unparsed(ValueField))
          else Ok((Klv(key.out.value, length.out.value, value.out.value), value.parser))
  }

  /** `Ok([klvs] + rest)` when `r` is `Ok(rest)`; the failure otherwise. */
  function Prepend(klvs: seq<Klv>, r: Result<seq<Klv>, Failure>): Result<seq<Klv>, Failure>
  {
    match r
    case Ok(rest) => Ok(klvs + rest)
    case Err(e) => Err(e)
  }

  /** Prepending in two steps is prepending once. */
  lemma PrependTwice(klvs: seq<Klv>, more: seq<Klv>, r: Result<seq<Klv>, Failure>)
    ensures Prepend(klvs, Prepend(more, r)) == Prepend(klvs + more, r)
  {
    if r.Ok? {
      assert klvs + (more + r.value) == klvs + more + r.value;
    }
  }

  /**
   The `while parser.has_next()` loop of `parse`, from parser `p` on. Every
   record it returns carries exactly `length` value bytes, and bytes left
   over that cannot hold a key and a length make it fail.
   */
  function ParseFrom(d: Dialect, p: Parser): (r: Result<seq<Klv>, Failure>)
    ensures !HasNext(p) ==> r == Ok([])
    ensures HasNext(p) && |p.input| - p.cursor <= KEY_LENGTH ==> r.Err?
    ensures r.Ok? ==> forall i | 0 <= i < |r.value| :: |r.value[i].value| == r.value[i].length
    decreases |p.input| - p.cursor
  {
    if !HasNext(p) then Ok([])
    else
      match ReadNext(d, p)
      case Err(e) => Err(e)
      case Ok((klv, q)) => Prepend([klv], ParseFrom(d, q))
  }

  /** `parse` as written: every record of `bytes` in order, or the panic that stops it. */
  function Parse(bytes: seq<uint8>): (r: Result<seq<Klv>, Failure>)
    ensures |bytes| == 0 ==> r == Ok([])
    ensures 0 < |bytes| < KEY_LENGTH ==> r == Err(Unparsed(KeyField))
    ensures |bytes| == KEY_LENGTH ==> r == Err(Unparsed(LengthField))
    ensures r.Ok? ==> forall i | 0 <= i < |r.value| :: |r.value[i].value| == r.value[i].length
  {
    ParseFrom(AsWritten, New(bytes))
  }

  /** `parse` with the corrected length and value readers. */
  function ParseStandard(bytes: seq<uint8>): (r: Result<seq<Klv>, Failure>)
    ensures |bytes| == 0 ==> r == Ok([])
    ensures 0 < |bytes| < KEY_LENGTH ==> r == Err(Unparsed(KeyField))
    ensures |bytes| == KEY_LENGTH ==> r == Err(Unparsed(LengthField))
    ensures r.Ok? ==> forall i | 0 <= i < |r.value| :: |r.value[i].value| == r.value[i].length
  {
    ParseFrom(Standard, New(bytes))
  }

  /**
   `parse` as the source writes it: a `while has_next` loop that appends
   each record of `read_next` to a vector. It computes `Parse`, and its
   cursor never leaves the buffer.
   */
  method ParseLoop(bytes: seq<uint8>) returns (r: Result<seq<Klv>, Failure>)
    ensures r == Parse(bytes)
  {
    var klvs: seq<Klv> := [];
    var parser := New(bytes);
    ghost var whole := ParseFrom(AsWritten, parser);
    if whole.Ok? {
      assert [] + whole.value == whole.value;
    }
    while HasNext(parser)
      invariant parser.input == bytes && parser.cursor <= |bytes|
      invariant Parse(bytes) == Prepend(klvs, ParseFrom(AsWritten, parser))
      decreases |bytes| - parser.cursor
    {
      match ReadNext(AsWritten, parser)
      case Err(e) =>
        return Err(e);
      case Ok((klv, next)) =>
        PrependTwice(klvs, [klv], ParseFrom(AsWritten, next));
        klvs := klvs + [klv];
        parser := next;
    }
    assert klvs + [] == klvs;
    return Ok(klvs);
  }
}
