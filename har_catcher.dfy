/**
  The capture bridge: a native-messaging host that reads length-prefixed
  frames from standard input, overwrites `har.json` with each payload and
  then touches the marker `har.json.ready`.

  The 4-byte length prefix is read in the host's native byte order; the
  model fixes it to little-endian (the x86-64 hosts the containers run on).
*/
module HarCatcher {
  import opened Wrappers
  import opened Seqs

  /** A byte, as an integer in [0, 256). */
  newtype Byte = b: int | 0 <= b < 0x100

  type Bytes = seq<Byte>

  const PrefixSize: nat := 4
  const PrefixLimit: nat := 0x1_0000_0000

  function Min(a: nat, b: nat): nat { if a <= b then a else b }

  /** `struct.unpack('@I', raw)[0]` for a 4-byte little-endian `raw`. */
  function Uint32(raw: Bytes): (n: nat)
    requires |raw| == PrefixSize
    ensures n < PrefixLimit
  {
    raw[0] as nat + 0x100 * raw[1] as nat + 0x1_0000 * raw[2] as nat + 0x100_0000 * raw[3] as nat
  }

  /** The prefix a sender writes in front of an `n`-byte payload. */
  function Uint32Bytes(n: nat): (raw: Bytes)
    requires n < PrefixLimit
    ensures |raw| == PrefixSize && Uint32(raw) == n
  {
    var q1 := n / 0x100;
    var q2 := q1 / 0x100;
    var b3 := q2 / 0x100;
    var b0, b1, b2 := n % 0x100, q1 % 0x100, q2 % 0x100;
    assert n == b0 + 0x100 * q1 && q1 == b1 + 0x100 * q2 && q2 == b2 + 0x100 * b3;
    assert q1 < 0x100_0000 && q2 < 0x1_0000 && b3 < 0x100;
    [b0 as Byte, b1 as Byte, b2 as Byte, b3 as Byte]
  }

  /** `n` split into its low byte and the rest. */
  lemma SplitLowByte(n: int, lo: int, hi: int)
    requires 0 <= lo < 0x100 && n == lo + 0x100 * hi
    ensures n / 0x100 == hi && n % 0x100 == lo
  {
  }

  /** Every 4-byte prefix is the one a sender writes for the length it denotes. */
  lemma Uint32BytesOfUint32(raw: Bytes)
    requires |raw| == PrefixSize
    ensures Uint32Bytes(Uint32(raw)) == raw
  {
    var n := Uint32(raw);
    var q2 := raw[2] as int + 0x100 * raw[3] as int;
    var q1 := raw[1] as int + 0x100 * q2;
    assert n == raw[0] as int + 0x100 * q1;
    SplitLowByte(n, raw[0] as int, q1);
    SplitLowByte(q1, raw[1] as int, q2);
    SplitLowByte(q2, raw[2] as int, raw[3] as int);
  }

  /** What one call of `get_message` sees. */
  datatype Frame =
    | EndOfInput              // `read(4)` returned nothing: `sys.exit(0)`
    | BadPrefix(raw: Bytes)   // 1 to 3 bytes: `struct.unpack` raises
    | Message(payload: Bytes) // whatever `read(length)` returned

  /**
    One call of `get_message` on the unread input `s`: the frame, and the
    input left unread. `read(n)` returns at most `n` bytes, fewer only at
    the end of the input.
  */
  function NextFrame(s: Bytes): (r: (Frame, Bytes))
    ensures r.0.EndOfInput? <==> s == []
    ensures r.0.BadPrefix? <==> 0 < |s| < PrefixSize
    ensures r.0.BadPrefix? ==> r.0.raw == s && r.1 == []
    ensures r.0.Message? ==> |r.1| + PrefixSize + |r.0.payload| == |s|
    ensures r.0.Message? ==> |r.0.payload| == Min(Uint32(s[..PrefixSize]), |s| - PrefixSize)
    ensures r.0.Message? ==> s[PrefixSize..][..|r.0.payload|] == r.0.payload && r.1 == s[PrefixSize + |r.0.payload|..]
  {
    var raw := s[..Min(PrefixSize, |s|)];
    if |raw| == 0 then (EndOfInput, s)
    else if |raw| < PrefixSize then (BadPrefix(raw), s[|raw|..])
    else
      var length := Uint32(raw);
      var rest := s[PrefixSize..];
      var payload := rest[..Min(length, |rest|)];
      (Message(payload), rest[|payload|..])
  }

  /** How the receive loop ends. */
  datatype Ending =
    | Exited                    // clean end of input, exit status 0
    | CouldNotSave(raw: Bytes)  // `struct.unpack` raised; the outer handler printed "Couldn't save HAR:"
    | CouldNotWrite             // `open` or `touch` raised `OSError`; the same handler printed it

  datatype Decoded = Decoded(messages: seq<Bytes>, ending: Ending)

  /** The messages the loop processes on input `s`, in order, and how it ends. */
  function Decode(s: Bytes): (d: Decoded)
    ensures !d.ending.CouldNotWrite?
    ensures d.ending.CouldNotSave? ==> 0 < |d.ending.raw| < PrefixSize
    decreases |s|
  {
    var (frame, rest) := NextFrame(s);
    match frame
    case EndOfInput => Decoded([], Exited)
    case BadPrefix(raw) => Decoded([], CouldNotSave(raw))
    case Message(m) =>
      var d := Decode(rest);
      Decoded([m] + d.messages, d.ending)
  }

  /** A sender's frame for `m`. */
  function EncodeFrame(m: Bytes): Bytes
    requires |m| < PrefixLimit
  {
    Uint32Bytes(|m|) + m
  }

  predicate Sendable(ms: seq<Bytes>) {
    forall i :: 0 <= i < |ms| ==> |ms[i]| < PrefixLimit
  }

  /** The byte stream a sender writes for the messages `ms`, in order. */
  function Encode(ms: seq<Bytes>): Bytes
    requires Sendable(ms)
  {
    if ms == [] then [] else EncodeFrame(ms[0]) + Encode(ms[1..])
  }

  /** A well-formed frame is read back as exactly its payload. */
  lemma NextFrameOfEncoded(m: Bytes, tail: Bytes)
    requires |m| < PrefixLimit
    ensures NextFrame(EncodeFrame(m) + tail) == (Message(m), tail)
  {
    var s := EncodeFrame(m) + tail;
    assert s[..PrefixSize] == Uint32Bytes(|m|);
    assert s[PrefixSize..] == m + tail;
    assert (m + tail)[..|m|] == m;
    assert (m + tail)[|m|..] == tail;
  }

  /**
    Conversely, an input that holds a whole frame is a sender's frame for
    the payload its prefix announces, followed by the rest.
  */
  lemma WholeFrameIsEncoded(s: Bytes)
    requires |s| >= PrefixSize && Uint32(s[..PrefixSize]) <= |s| - PrefixSize
    ensures var n := Uint32(s[..PrefixSize]);
      && s == EncodeFrame(s[PrefixSize..PrefixSize + n]) + s[PrefixSize + n..]
      && NextFrame(s) == (Message(s[PrefixSize..PrefixSize + n]), s[PrefixSize + n..])
  {
    var n := Uint32(s[..PrefixSize]);
    var m := s[PrefixSize..PrefixSize + n];
    Uint32BytesOfUint32(s[..PrefixSize]);
    assert Uint32Bytes(|m|) == s[..PrefixSize];
    assert s == s[..PrefixSize] + m + s[PrefixSize + n..];
    NextFrameOfEncoded(m, s[PrefixSize + n..]);
  }

  /** Decoding an input that starts with a message: that message, then the rest. */
  lemma DecodeStep(s: Bytes)
    requires NextFrame(s).0.Message?
    ensures Decode(s) == Decoded([NextFrame(s).0.payload] + Decode(NextFrame(s).1).messages,
                                 Decode(NextFrame(s).1).ending)
  {
  }

  /** Processing one more message of the remaining input keeps the overall decoding in view. */
  lemma DecodeProgress(input: Bytes, done: seq<Bytes>, s: Bytes)
    requires NextFrame(s).0.Message?
    requires Decode(input) == Decoded(done + Decode(s).messages, Decode(s).ending)
    ensures var (frame, rest) := NextFrame(s);
      Decode(input) == Decoded((done + [frame.payload]) + Decode(rest).messages, Decode(rest).ending)
  {
    DecodeStep(s);
    SnocAppend(done, NextFrame(s).0.payload, Decode(NextFrame(s).1).messages);
  }

  /** When the remaining input holds no message, the messages processed so far are all there are. */
  lemma DecodeEnds(input: Bytes, done: seq<Bytes>, s: Bytes)
    requires !NextFrame(s).0.Message?
    requires Decode(input) == Decoded(done + Decode(s).messages, Decode(s).ending)
    ensures NextFrame(s).1 == [] && Decode(input).messages == done
    ensures Decode(input).ending == if NextFrame(s).0.EndOfInput? then Exited else CouldNotSave(NextFrame(s).0.raw)
  {
    assert done + [] == done;
  }

  /** Frames in front of any input are processed first, in order. */
  lemma {:induction false} DecodeAppend(ms: seq<Bytes>, tail: Bytes)
    requires Sendable(ms)
    ensures Decode(Encode(ms) + tail) == Decoded(ms + Decode(tail).messages, Decode(tail).ending)
  {
    if ms == [] {
      assert Encode(ms) + tail == tail;
    } else {
      var m, ms' := ms[0], ms[1..];
      assert Sendable(ms');
      var rest := Encode(ms') + tail;
      var s := Encode(ms) + tail;
      assert s == EncodeFrame(m) + rest;
      NextFrameOfEncoded(m, rest);
      DecodeStep(s);
      DecodeAppend(ms', tail);
      ConsAppend(ms, Decode(tail).messages);
    }
  }

  /** Round trip: the concatenated frames of m1..mn yield m1..mn, then a clean exit. */
  lemma RoundTrip(ms: seq<Bytes>)
    requires Sendable(ms)
    ensures Decode(Encode(ms)) == Decoded(ms, Exited)
  {
    DecodeAppend(ms, []);
    assert Encode(ms) + [] == Encode(ms);
    assert ms + [] == ms;
  }

  /** A zero length prefix is not the end of the input: it is an empty message. */
  lemma ZeroLengthIsEmptyMessage(tail: Bytes)
    ensures Decode([0, 0, 0, 0] + tail) == Decoded([[]] + Decode(tail).messages, Decode(tail).ending)
  {
    NextFrameOfEncoded([], tail);
    assert EncodeFrame([]) == [0, 0, 0, 0];
  }

  /** A 1 to 3 byte prefix ends the loop through the handler, with no message. */
  lemma TruncatedPrefix(s: Bytes)
    requires 0 < |s| < PrefixSize
    ensures Decode(s) == Decoded([], CouldNotSave(s))
  {
  }

  /** A payload cut short by the end of the input is still written, then the loop exits. */
  lemma ShortPayload(s: Bytes)
    requires |s| >= PrefixSize && Uint32(s[..PrefixSize]) > |s| - PrefixSize
    ensures Decode(s) == Decoded([s[PrefixSize..]], Exited)
  {
    var rest := s[PrefixSize..];
    assert s[..Min(PrefixSize, |s|)] == s[..PrefixSize];
    assert Min(Uint32(s[..PrefixSize]), |rest|) == |rest|;
    assert rest[..|rest|] == rest;
    assert NextFrame(s) == (Message(rest), []);
    DecodeStep(s);
    assert Decode([]) == Decoded([], Exited);
  }

  /** The file-system effects of the loop. */
  datatype FileOp = WriteHar(content: Bytes) | TouchReady

  /** Each processed message overwrites `har.json`, then touches the marker. */
  function Ops(ms: seq<Bytes>): (ops: seq<FileOp>)
    ensures |ops| == 2 * |ms|
  {
    if ms == [] then [] else [WriteHar(ms[0]), TouchReady] + Ops(ms[1..])
  }

  function Last(ms: seq<Bytes>): Bytes
    requires ms != []
  {
    ms[|ms| - 1]
  }

  lemma OpsAppend(ms: seq<Bytes>, m: Bytes)
    ensures Ops(ms + [m]) == Ops(ms) + [WriteHar(m), TouchReady]
  {
    if ms != [] {
      assert (ms + [m])[1..] == ms[1..] + [m];
    } else {
      assert ms + [m] == [m];
    }
  }

  /** The marker is never touched before a message has been written just before it. */
  lemma {:induction false} TouchFollowsWrite(ms: seq<Bytes>, i: nat)
    requires i < |Ops(ms)| && Ops(ms)[i] == TouchReady
    ensures i > 0 && Ops(ms)[i - 1].WriteHar? && i % 2 == 1 && Ops(ms)[i - 1].content == ms[i / 2]
  {
    if i >= 2 {
      assert Ops(ms)[i] == Ops(ms[1..])[i - 2];
      TouchFollowsWrite(ms[1..], i - 2);
    }
  }

  /**
    The capture bridge process: standard input and the two files it writes,
    in a working directory that either accepts writes or refuses every one
    of them (read-only, or without permission).
  */
  class CaptureBridge {
    const writable: bool          // whether opening and touching files in the working directory succeeds
    var stdin: Bytes              // bytes not yet read from standard input
    var harJson: Option<Bytes>    // content of har.json, None while it does not exist
    var ready: bool               // whether har.json.ready exists
    ghost var ops: seq<FileOp>    // file-system operations performed so far

    constructor (input: Bytes, writable: bool)
      ensures this.writable == writable
      ensures stdin == input && harJson == None && !ready && ops == []
    {
      this.writable := writable;
      stdin, harJson, ready := input, None, false;
      ops := [];
    }

    /** `sys.stdin.buffer.read(n)`: at most `n` bytes, fewer only at the end of the input. */
    method Read(n: nat) returns (chunk: Bytes)
      modifies this`stdin
      ensures chunk == old(stdin)[..Min(n, |old(stdin)|)]
      ensures stdin == old(stdin)[|chunk|..]
    {
      chunk := stdin[..Min(n, |stdin|)];
      stdin := stdin[|chunk|..];
    }

    /** `get_message`: a length prefix, then that many payload bytes. */
    method GetMessage() returns (frame: Frame)
      modifies this`stdin
      ensures (frame, stdin) == NextFrame(old(stdin))
    {
      var raw := Read(PrefixSize);
      if |raw| == 0 {
        return EndOfInput;
      }
      if |raw| < PrefixSize {
        return BadPrefix(raw);
      }
      var length := Uint32(raw);
      var message := Read(length);
      return Message(message);
    }

    /**
      `open("har.json", 'wb').write(m)`: the file holds exactly `m`, or,
      in a directory that refuses writes, `open` raises and nothing changes.
    */
    method WriteHarFile(m: Bytes) returns (ok: bool)
      modifies this`harJson, this`ops
      ensures ok == writable
      ensures ok ==> harJson == Some(m) && ops == old(ops) + [WriteHar(m)]
      ensures !ok ==> harJson == old(harJson) && ops == old(ops)
    {
      if !writable {
        return false;
      }
      harJson := Some(m);
      ops := ops + [WriteHar(m)];
      return true;
    }

    /** `pathlib.Path("har.json.ready").touch()`, which raises where writes are refused. */
    method TouchMarker() returns (ok: bool)
      modifies this`ready, this`ops
      ensures ok == writable
      ensures ok ==> ready && ops == old(ops) + [TouchReady]
      ensures !ok ==> ready == old(ready) && ops == old(ops)
    {
      if !writable {
        return false;
      }
      ready := true;
      ops := ops + [TouchReady];
      return true;
    }

    /**
      The body of the loop after a message arrived: write it, then touch the
      marker; `ok` is false when the first of the two raised.
    */
    method Save(m: Bytes) returns (ok: bool)
      modifies this`harJson, this`ready, this`ops
      ensures ok == writable
      ensures ok ==> harJson == Some(m) && ready && ops == old(ops) + [WriteHar(m), TouchReady]
      ensures !ok ==> harJson == old(harJson) && ready == old(ready) && ops == old(ops)
    {
      ok := WriteHarFile(m);
      if !ok {
        return;
      }
      ok := TouchMarker();
    }

    /**
      The `while True` loop with its outer exception handler. Where writes
      succeed, every message is saved in turn until the input ends; where
      they are refused, the first message ends the loop, unsaved, with the
      rest of the input left unread.
    */
    method Run() returns (ending: Ending)
      modifies this`stdin, this`harJson, this`ready, this`ops
      ensures writable || Decode(old(stdin)).messages == [] ==>
        && ending == Decode(old(stdin)).ending
        && stdin == []
        && ops == old(ops) + Ops(Decode(old(stdin)).messages)
        && harJson == (if Decode(old(stdin)).messages == [] then old(harJson)
                       else Some(Last(Decode(old(stdin)).messages)))
        && ready == (old(ready) || Decode(old(stdin)).messages != [])
      ensures !writable && Decode(old(stdin)).messages != [] ==>
        && ending == CouldNotWrite
        && stdin == NextFrame(old(stdin)).1
        && ops == old(ops) && harJson == old(harJson) && ready == old(ready)
    {
      ghost var input, ops0, har0, ready0 := stdin, ops, harJson, ready;
      ghost var done: seq<Bytes> := [];
      while true
        invariant Decode(input) == Decoded(done + Decode(stdin).messages, Decode(stdin).ending)
        invariant !writable ==> done == [] && stdin == input
        invariant ops == ops0 + Ops(done)
        invariant harJson == if done == [] then har0 else Some(Last(done))
        invariant ready == (ready0 || done != [])
        decreases |stdin|
      {
        ghost var before := stdin;
        var frame := GetMessage();
        if !frame.Message? {
          DecodeEnds(input, done, before);
          return if frame.EndOfInput? then Exited else CouldNotSave(frame.raw);
        }
        var m := frame.payload;
        var ok := Save(m);
        if !ok {
          DecodeStep(input);
          return CouldNotWrite;
        }
        OpsAppend(done, m);
        SeqAssoc(ops0, Ops(done), [WriteHar(m), TouchReady]);
        DecodeProgress(input, done, before);
        done := done + [m];
        assert Last(done) == m;
      }
    }
  }
}
