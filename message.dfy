/** The framing codec of server/message.go. A frame on the wire is
      [4 bytes sequence][4 bytes length][payload]
    with both header words big-endian. `Message` is the Go `message` struct,
    whose Decode overwrites its fields in place; `Frame` is its value, on
    which the specification functions below are written. */
module Messages {
  import opened BigEndian

  /** Offset of the length word, and of the payload. */
  const LenIdx := 4
  const MsgIdx := 8

  datatype Option<T> = None | Some(value: T)

  /** The errors io.ReadFull reports through binary.Read: nothing left at all,
      or some bytes but fewer than asked for. */
  datatype Error = EOF | UnexpectedEOF

  /** The three fields of a message: `length` is the stored header value,
      which need not equal |payload| after decoding a truncated frame. */
  datatype Frame = Frame(sequence: uint32, length: uint32, payload: seq<byte>)

  /** Go's uint32(n) conversion of a length: wraps modulo 2^32. */
  function ToUint32(n: nat): (r: uint32)
    ensures n < 0x1_0000_0000 ==> r as int == n
  {
    (n % 0x1_0000_0000) as uint32
  }

  /** Go's int32(x) conversion of a uint32: the two's complement reading of
      the same 32 bits. */
  function ToInt32(x: uint32): (r: int)
    ensures -0x8000_0000 <= r < 0x8000_0000
    ensures r % 0x1_0000_0000 == x as int
    ensures r >= 0 <==> x < 0x8000_0000
  {
    if x < 0x8000_0000 then x as int else x as int - 0x1_0000_0000
  }

  /** The helper `decode(b, n)`: binary.Read into a fresh n-byte slice.
      It yields exactly the first n bytes when there are that many, and the
      empty slice together with an error otherwise. (make panics on a
      negative n, hence the precondition.) */
  function ReadN(b: seq<byte>, n: int): (r: (seq<byte>, Option<Error>))
    requires 0 <= n
    ensures r.1 == None <==> n <= |b|
    ensures r.1 == None ==> r.0 == b[..n]
    ensures r.1 != None ==> r.0 == [] && (r.1 == Some(EOF) <==> |b| == 0)
  {
    if n <= |b| then (b[..n], None)
    else if |b| == 0 then ([], Some(EOF))
    else ([], Some(UnexpectedEOF))
  }

  /** The helper `encode(b)`: binary.Write of a byte slice into an in-memory
      buffer, which copies it verbatim and cannot fail. */
  function EncodePayload(b: seq<byte>): (r: (seq<byte>, Option<Error>))
  {
    (b, None)
  }

  /** The wire image of a frame: the sequence word, the length word as
      stored, then the payload verbatim. */
  function EncodeFrame(f: Frame): (r: seq<byte>)
    ensures |r| == MsgIdx + |f.payload|
    ensures r[..LenIdx] == PutUint32(f.sequence)
    ensures r[LenIdx..MsgIdx] == PutUint32(f.length)
    ensures r[MsgIdx..] == f.payload
  {
    PutUint32(f.sequence) + PutUint32(f.length) + f.payload
  }

  /** The length word at offset 4. */
  function HeaderLength(b: seq<byte>): uint32
    requires |b| >= MsgIdx
  {
    Uint32(b[LenIdx..MsgIdx])
  }

  /** The buffers Decode accepts without a Go panic: at least a full header
      (b[msgIdx:] is checked against the slice's length, so fewer than 8
      bytes panic whatever the capacity), and a length word that stays
      non-negative through int32(...) (make([]byte, n) panics otherwise). */
  predicate Decodable(b: seq<byte>)
  {
    |b| >= MsgIdx && ToInt32(HeaderLength(b)) >= 0
  }

  /** What Decode stores: the two header words, and exactly `length` payload
      bytes from offset 8 (later bytes ignored), or no payload at all when
      fewer than `length` bytes follow the header. */
  function DecodeFrame(b: seq<byte>): (f: Frame)
    requires Decodable(b)
    ensures f.sequence == Uint32(b[..LenIdx])
    ensures f.length == HeaderLength(b)
    ensures MsgIdx + f.length as int <= |b| ==> f.payload == b[MsgIdx..MsgIdx + f.length as int]
    ensures MsgIdx + f.length as int > |b| ==> f.payload == []
  {
    var length := HeaderLength(b);
    Frame(Uint32(b[..LenIdx]), length, ReadN(b[MsgIdx..], ToInt32(length)).0)
  }

  /** How far DecodeMsgs moves its cursor after one frame: the header plus the
      payload bytes actually decoded, never the stored length. */
  function Advance(b: seq<byte>): (n: nat)
    requires Decodable(b)
    ensures MsgIdx <= n <= |b|
    ensures n == if MsgIdx + HeaderLength(b) as int <= |b| then MsgIdx + HeaderLength(b) as int else MsgIdx
  {
    MsgIdx + |DecodeFrame(b).payload|
  }

  /** The buffers DecodeMsgs walks without a Go panic: every remainder it
      decodes from is Decodable, and it stops on an empty remainder. */
  predicate Splittable(b: seq<byte>)
    decreases |b|
  {
    Decodable(b) && (b[Advance(b)..] == [] || Splittable(b[Advance(b)..]))
  }

  /** Bytes a list of decoded frames accounts for: header plus payload each. */
  function FramesSize(fs: seq<Frame>): nat
  {
    if fs == [] then 0 else MsgIdx + |fs[0].payload| + FramesSize(fs[1..])
  }

  /** The frames DecodeMsgs returns, in order: the frame at the front, then
      those of the remainder past the bytes it consumed, if any. */
  function DecodeAll(b: seq<byte>): (fs: seq<Frame>)
    requires Splittable(b)
    decreases |b|
  {
    var rest := b[Advance(b)..];
    [DecodeFrame(b)] + (if rest == [] then [] else DecodeAll(rest))
  }

  /** The frames DecodeMsgs returns account for every byte of the buffer:
      headers plus decoded payloads add up to its length exactly. */
  lemma {:induction false} DecodeAllConsumes(b: seq<byte>)
    requires Splittable(b)
    ensures FramesSize(DecodeAll(b)) == |b|
    decreases |b|
  {
    var rest := b[Advance(b)..];
    var fs := DecodeAll(b);
    if rest != [] {
      DecodeAllConsumes(rest);
      assert fs[1..] == DecodeAll(rest);
    }
  }

  /** DecodeMsgs returns at least one message, and at most one per 8 bytes. */
  lemma {:induction false} DecodeAllCount(b: seq<byte>)
    requires Splittable(b)
    ensures 1 <= |DecodeAll(b)| <= |b| / MsgIdx
    decreases |b|
  {
    var rest := b[Advance(b)..];
    if rest != [] {
      DecodeAllCount(rest);
    }
  }

  /** The wire image of several frames sent one after another. */
  function EncodeAll(fs: seq<Frame>): (r: seq<byte>)
    ensures |r| == FramesSize(fs)
  {
    if fs == [] then [] else EncodeFrame(fs[0]) + EncodeAll(fs[1..])
  }

  class Message {
    var sequence: uint32
    var length: uint32
    var msg: seq<byte>

    /** The message's fields as a value. */
    function Value(): Frame
      reads this
    {
      Frame(sequence, length, msg)
    }

    /** NewMsg: the sequence number as given, the payload as the bytes of
        `s`, and the length field as uint32(len(s)), wrapped modulo 2^32. */
    constructor NewMsg(sequence: uint32, s: seq<byte>)
      ensures this.sequence == sequence && msg == s
      ensures length as int == |s| % 0x1_0000_0000
      ensures |s| < 0x1_0000_0000 ==> length as int == |s|
    {
      this.sequence := sequence;
      length := ToUint32(|s|);
      msg := s;
    }

    /** The payload. */
    function Msg(): (p: seq<byte>)
      reads this
      ensures p == Value().payload
    {
      msg
    }

    /** The number of payload bytes held, which is not the length field. */
    function Len(): (n: nat)
      reads this
      ensures n == |Msg()|
    {
      |msg|
    }

    /** Encode: sequence word, then the stored length word, then the payload,
        appended one after another to a growing buffer. */
    method Encode() returns (r: seq<byte>, err: Option<Error>)
      ensures err == None
      ensures r == EncodeFrame(Value())
      ensures |r| == MsgIdx + Len()
    {
      var buf: seq<byte> := [];
      var b := PutUint32(sequence);
      buf := buf + b[..LenIdx];
      b := PutUint32(length);
      buf := buf + b[..LenIdx];
      // encode cannot fail on an in-memory buffer, so its error is not checked
      var (payload, _) := EncodePayload(msg);
      buf := buf + payload;
      r, err := buf, None;
    }

    /** Decode: overwrites all three fields from the front of `b` and always
        reports success, even when the payload is cut short. */
    method Decode(b: seq<byte>) returns (err: Option<Error>)
      requires Decodable(b)
      modifies this
      ensures err == None
      ensures Value() == DecodeFrame(b)
    {
      // The two header reads are handed exactly four bytes each and cannot fail.
      var (s, _) := ReadN(b[..LenIdx], LenIdx);
      sequence := Uint32(s);
      var (l, _) := ReadN(b[LenIdx..MsgIdx], LenIdx);
      length := Uint32(l);
      // The payload read's error is dropped; on a short read msg becomes empty.
      var (m, _) := ReadN(b[MsgIdx..], ToInt32(length));
      msg := m;
      err := None;
    }
  }

  /** The DecodeMsgs walk with the frames found so far carried along: the
      frame at the front of `b` is appended to `done`, and the walk goes on
      past the bytes it consumed unless nothing is left. */
  function Collect(done: seq<Frame>, b: seq<byte>): seq<Frame>
    requires Splittable(b)
    decreases |b|
  {
    var rest := b[Advance(b)..];
    if rest == [] then done + [DecodeFrame(b)] else Collect(done + [DecodeFrame(b)], rest)
  }

  /** Carrying the frames found so far along the walk ends with those frames
      followed by DecodeAll of what is left. */
  lemma {:induction false} CollectDecodeAll(done: seq<Frame>, b: seq<byte>)
    requires Splittable(b)
    ensures Collect(done, b) == done + DecodeAll(b)
    decreases |b|
  {
    var f, rest := DecodeFrame(b), b[Advance(b)..];
    if rest != [] {
      var fs := DecodeAll(rest);
      assert DecodeAll(b) == [f] + fs;
      CollectDecodeAll(done + [f], rest);
      AppendAssoc(done, [f], fs);
    }
  }

  /** The empty sequence is a left unit of concatenation. */
  lemma AppendEmpty<T>(a: seq<T>)
    ensures [] + a == a
  {
  }

  /** Concatenation is associative. */
  lemma AppendAssoc<T>(a: seq<T>, b: seq<T>, c: seq<T>)
    ensures (a + b) + c == a + (b + c)
  {
  }

  /** Started with no frames, the walk finds exactly DecodeAll of the buffer. */
  lemma CollectAll(b: seq<byte>)
    requires Splittable(b)
    ensures Collect([], b) == DecodeAll(b)
  {
    CollectDecodeAll([], b);
    AppendEmpty(DecodeAll(b));
  }

  /** Appending a message that is not in a list of distinct messages keeps
      them distinct. */
  lemma DistinctSnoc(ms: seq<Message>, m: Message)
    requires forall i, j :: 0 <= i < j < |ms| ==> ms[i] != ms[j]
    requires m !in ms
    ensures forall i, j :: 0 <= i < j < |ms + [m]| ==> (ms + [m])[i] != (ms + [m])[j]
  {
  }

  /** DecodeMsgs: decode a frame into a fresh message, append it, move the
      cursor past the header and the bytes decoded, and stop once nothing is
      left. The messages hold, in order, the frames DecodeAll finds in the
      buffer; each is newly allocated and no two are the same object; the
      error is nil. */
  method DecodeMsgs(b: seq<byte>) returns (msgs: seq<Message>, err: Option<Error>)
    requires Splittable(b)
    ensures err == None
    ensures |msgs| == |DecodeAll(b)|
    ensures forall i :: 0 <= i < |msgs| ==> msgs[i].Value() == DecodeAll(b)[i]
    ensures forall i :: 0 <= i < |msgs| ==> fresh(msgs[i])
    ensures forall i, j :: 0 <= i < j < |msgs| ==> msgs[i] != msgs[j]
  {
    msgs := [];
    var rest := b;
    ghost var done: seq<Frame> := [];
    while true
      invariant Splittable(rest)
      invariant Collect(done, rest) == Collect([], b)
      invariant |msgs| == |done|
      invariant forall i :: 0 <= i < |msgs| ==> msgs[i].Value() == done[i]
      invariant forall i :: 0 <= i < |msgs| ==> fresh(msgs[i])
      invariant forall i, j :: 0 <= i < j < |msgs| ==> msgs[i] != msgs[j]
      decreases |rest|
    {
      var msg := new Message.NewMsg(0, []);
      // Decode never reports an error, so the error branch is not modelled.
      err := msg.Decode(rest);
      DistinctSnoc(msgs, msg);
      msgs := msgs + [msg];
      done := done + [DecodeFrame(rest)];
      rest := rest[MsgIdx + msg.Len()..];
      assert forall i :: 0 <= i < |msgs| ==> msgs[i].Value() == done[i] && fresh(msgs[i]);
      if |rest| == 0 {
        CollectAll(b);
        return;
      }
    }
  }
}
