/** Docker's multiplexed log stream: frames of an eight-byte header (stream
    type, three zero bytes, big-endian payload size) and a payload, as in
    "Stream format" under ContainerAttach of the Docker Engine API v1.41. */
module DockerLogs {

  type Byte = b: int | 0 <= b < 256

  const HEADER_LENGTH: int := 8

  datatype Frame = Frame(stream: Byte, payload: seq<Byte>)

  // -------------------------------------------------------------------- encoding

  function BigEndian(n: nat): (b: seq<Byte>)
    requires n < 0x1_0000_0000
    ensures |b| == 4
  {
    [n / 0x100_0000, n / 0x1_0000 % 0x100, n / 0x100 % 0x100, n % 0x100]
  }

  /** The first byte weighs most. */
  function FromBigEndian(b: seq<Byte>): nat { Value(0, b, 0) }

  /** The number whose bytes are those of `high` and then `b[i..]`. */
  function Value(high: nat, b: seq<Byte>, i: nat): nat
    requires i <= |b|
    decreases |b| - i
  {
    if i == |b| then high else Value(0x100 * high + b[i], b, i + 1)
  }

  lemma BigEndianInverse(n: nat)
    requires n < 0x1_0000_0000
    ensures FromBigEndian(BigEndian(n)) == n
  {
    var a := n / 0x100;
    var b := a / 0x100;
    var c := b / 0x100;
    assert n == a * 0x100 + n % 0x100 && a == b * 0x100 + a % 0x100 && b == c * 0x100 + b % 0x100;
    assert n / 0x1_0000 == b && n / 0x100_0000 == c;
    FourBytes(c, b % 0x100, a % 0x100, n % 0x100);
  }

  lemma FourBytes(c: Byte, b: Byte, a: Byte, n: Byte)
    ensures FromBigEndian([c, b, a, n]) == 0x100_0000 * c + 0x1_0000 * b + 0x100 * a + n
  {
    var s: seq<Byte>, cb := [c, b, a, n], 0x100 * c + b;
    var cba := 0x100 * cb + a;
    assert Value(cba, s, 3) == Value(0x100 * cba + n, s, 4);
    assert Value(cb, s, 2) == Value(cba, s, 3);
    assert Value(c, s, 1) == Value(cb, s, 2);
  }

  predicate Encodable(f: Frame) { |f.payload| < 0x1_0000_0000 }

  function Header(f: Frame): (h: seq<Byte>)
    requires Encodable(f)
    ensures |h| == HEADER_LENGTH
  {
    [f.stream, 0, 0, 0] + BigEndian(|f.payload|)
  }

  function Encode(frames: seq<Frame>): seq<Byte>
    requires forall i :: 0 <= i < |frames| ==> Encodable(frames[i])
  {
    if frames == [] then [] else Header(frames[0]) + frames[0].payload + Encode(frames[1..])
  }

  function Payloads(frames: seq<Frame>): seq<Byte> {
    if frames == [] then [] else frames[0].payload + Payloads(frames[1..])
  }

  // -------------------------------------------------------------------- decoding

  predicate IsHeader(b: seq<Byte>)
    requires |b| >= HEADER_LENGTH
  {
    b[1] == 0 && b[2] == 0 && b[3] == 0
  }

  /** What the frame loop appends from here on. */
  function DecodeFrames(b: seq<Byte>): seq<Byte> {
    if |b| < HEADER_LENGTH then []
    else if !IsHeader(b) then b
    else
      var end := HEADER_LENGTH + FromBigEndian(b[4..8]);
      if end >= |b| then b[HEADER_LENGTH..]
      else b[HEADER_LENGTH..end] + DecodeFrames(b[end..])
  }

  /** The loop body, given the size its header announces. */
  lemma DecodeStep(b: seq<Byte>, size: nat)
    requires |b| >= HEADER_LENGTH && IsHeader(b) && FromBigEndian(b[4..8]) == size
    ensures HEADER_LENGTH + size >= |b| ==> DecodeFrames(b) == b[HEADER_LENGTH..]
    ensures HEADER_LENGTH + size < |b| ==>
              DecodeFrames(b) == b[HEADER_LENGTH..HEADER_LENGTH + size] + DecodeFrames(b[HEADER_LENGTH + size..])
  {
  }

  function DecodeStream(b: seq<Byte>): seq<Byte> {
    if |b| >= HEADER_LENGTH && IsHeader(b) then DecodeFrames(b) else b
  }

  /** What is still to be decoded at the cursor, which may be past the end. */
  function Remaining(payload: seq<Byte>, cursor: nat): seq<Byte> {
    if cursor <= |payload| then DecodeFrames(payload[cursor..]) else []
  }

  /** `decode_docker_log_stream`, up to the final UTF-8 decoding: terminates on
      arbitrary bytes. */
  method DecodeDockerLogStream(payload: seq<Byte>) returns (text: seq<Byte>)
    ensures text == DecodeStream(payload)
  {
    if payload == [] {
      return [];
    }
    if |payload| >= HEADER_LENGTH && payload[1] == 0 && payload[2] == 0 && payload[3] == 0 {
      text := DecodeFramed(payload);
      assert payload[0..] == payload;
    } else {
      text := payload;
    }
  }

  /** The frame loop. */
  method DecodeFramed(payload: seq<Byte>) returns (text: seq<Byte>)
    ensures text == Remaining(payload, 0)
  {
    var cursor := 0;
    text := [];
    while cursor + HEADER_LENGTH <= |payload|
      invariant 0 <= cursor
      invariant Remaining(payload, 0) == text + Remaining(payload, cursor)
      decreases |payload| - cursor
    {
      if !ZerosAt(payload, cursor + 1) {
        RawRemainder(payload, cursor);
        text := text + payload[cursor..];
        return;
      }
      var chunk, size := TakeFrame(payload, cursor);
      cursor := cursor + HEADER_LENGTH + size;
      Regroup(text, chunk, Remaining(payload, cursor));
      text := text + chunk;
    }
    TooShort(payload, cursor);
    assert text + [] == text;
  }

  lemma Regroup(a: seq<Byte>, b: seq<Byte>, c: seq<Byte>)
    ensures a + (b + c) == (a + b) + c
  {
  }

  lemma RawRemainder(payload: seq<Byte>, cursor: nat)
    requires cursor + HEADER_LENGTH <= |payload| && !ZerosAt(payload, cursor + 1)
    ensures Remaining(payload, cursor) == payload[cursor..]
  {
    HeaderAt(payload, cursor);
  }

  predicate ZerosAt(payload: seq<Byte>, i: nat)
    requires i + 3 <= |payload|
  {
    payload[i] == 0 && payload[i + 1] == 0 && payload[i + 2] == 0
  }

  lemma HeaderAt(payload: seq<Byte>, cursor: nat)
    requires cursor + HEADER_LENGTH <= |payload|
    ensures IsHeader(payload[cursor..]) <==> ZerosAt(payload, cursor + 1)
    ensures payload[cursor..][4..8] == payload[cursor + 4..cursor + 8]
  {
  }

  lemma TooShort(payload: seq<Byte>, cursor: nat)
    requires cursor + HEADER_LENGTH > |payload|
    ensures Remaining(payload, cursor) == []
  {
  }

  /** One frame at the cursor; its payload may be cut off by the end. */
  method TakeFrame(payload: seq<Byte>, cursor: nat) returns (chunk: seq<Byte>, size: nat)
    requires cursor + HEADER_LENGTH <= |payload| && ZerosAt(payload, cursor + 1)
    ensures Remaining(payload, cursor) == chunk + Remaining(payload, cursor + HEADER_LENGTH + size)
  {
    ghost var rest := payload[cursor..];
    size := FromBigEndian(payload[cursor + 4..cursor + 8]);
    HeaderAt(payload, cursor);
    DecodeStep(rest, size);
    var start := cursor + HEADER_LENGTH;
    var end := if start + size <= |payload| then start + size else |payload|;
    chunk := payload[start..end];
    assert chunk == rest[HEADER_LENGTH..HEADER_LENGTH + (end - start)];
    if start + size < |payload| {
      assert rest[HEADER_LENGTH + size..] == payload[start + size..];
    } else {
      assert rest[HEADER_LENGTH..] == chunk;
      TooShort(payload, start + size);
      assert chunk + [] == chunk;
    }
  }

  /** A header's zero bytes and the size it announces. */
  ghost predicate Announces(h: seq<Byte>, size: nat) {
    |h| == HEADER_LENGTH && IsHeader(h) && FromBigEndian(h[4..8]) == size
  }

  lemma HeaderAnnounces(f: Frame)
    requires Encodable(f)
    ensures Announces(Header(f), |f.payload|)
  {
    assert Header(f)[4..8] == BigEndian(|f.payload|);
    BigEndianInverse(|f.payload|);
  }

  lemma AfterHeader(h: seq<Byte>, size: nat, rest: seq<Byte>)
    requires Announces(h, size)
    ensures |rest| <= size ==> DecodeFrames(h + rest) == rest
    ensures |rest| > size ==> DecodeFrames(h + rest) == rest[..size] + DecodeFrames(rest[size..])
  {
    var b := h + rest;
    assert b[4..8] == h[4..8] && b[HEADER_LENGTH..] == rest;
    DecodeStep(b, size);
    if |rest| > size {
      var end := HEADER_LENGTH + size;
      assert b[HEADER_LENGTH..end] == rest[..size] && b[end..] == rest[size..];
    }
  }

  /** One frame off the front of what is left. */
  lemma DecodeOneFrame(f: Frame, rest: seq<Byte>)
    requires Encodable(f)
    ensures |rest| <= |f.payload| ==> DecodeFrames(Header(f) + rest) == rest
    ensures |rest| > |f.payload| ==>
              DecodeFrames(Header(f) + rest) == rest[..|f.payload|] + DecodeFrames(rest[|f.payload|..])
  {
    HeaderAnnounces(f);
    AfterHeader(Header(f), |f.payload|, rest);
  }

  /** The payload bytes among the first `n` bytes of the stream. */
  ghost function PayloadWithin(frames: seq<Frame>, n: int): seq<Byte> {
    if frames == [] || n <= 8 then []
    else if n - 8 <= |frames[0].payload| then frames[0].payload[..n - 8]
    else frames[0].payload + PayloadWithin(frames[1..], n - 8 - |frames[0].payload|)
  }

  /** A stream cut anywhere decodes to the payload bytes that are left. */
  lemma {:induction false} TruncatedFrames(frames: seq<Frame>, n: nat)
    requires forall i :: 0 <= i < |frames| ==> Encodable(frames[i])
    requires n <= |Encode(frames)|
    ensures DecodeFrames(Encode(frames)[..n]) == PayloadWithin(frames, n)
  {
    if frames != [] && n >= HEADER_LENGTH {
      var f, others := frames[0], frames[1..];
      EncodeFirst(frames);
      CutFrame(Header(f), f.payload, Encode(others), n);
      DecodeOneFrame(f, (f.payload + Encode(others))[..n - HEADER_LENGTH]);
      var m := n - HEADER_LENGTH - |f.payload|;
      if m > 0 {
        TruncatedFrames(others, m);
        assert PayloadWithin(frames, n) == f.payload + PayloadWithin(others, m);
      } else {
        assert PayloadWithin(frames, n) == f.payload[..n - HEADER_LENGTH];
      }
    }
  }

  lemma EncodeFirst(frames: seq<Frame>)
    requires frames != [] && forall i :: 0 <= i < |frames| ==> Encodable(frames[i])
    ensures Encode(frames) == Header(frames[0]) + (frames[0].payload + Encode(frames[1..]))
    ensures |Encode(frames)| == 8 + |frames[0].payload| + |Encode(frames[1..])|
  {
  }

  lemma CutFrame(h: seq<Byte>, payload: seq<Byte>, more: seq<Byte>, n: nat)
    requires |h| <= n <= |h| + |payload| + |more|
    ensures var kept, m := (payload + more)[..n - |h|], n - |h| - |payload|;
            && (h + (payload + more))[..n] == h + kept
            && (m <= 0 ==> kept == payload[..n - |h|])
            && (m > 0 ==> kept[..|payload|] == payload && kept[|payload|..] == more[..m])
  {
  }

  lemma {:induction false} WithinIsPrefix(frames: seq<Frame>, n: nat)
    requires forall i :: 0 <= i < |frames| ==> Encodable(frames[i])
    ensures PayloadWithin(frames, n) <= Payloads(frames)
    ensures n == |Encode(frames)| ==> PayloadWithin(frames, n) == Payloads(frames)
  {
    if frames != [] {
      var f, others := frames[0], frames[1..];
      var m := n - 8 - |f.payload|;
      EncodeFirst(frames);
      if m > 0 {
        WithinIsPrefix(others, m);
      } else if n == |Encode(frames)| {
        EmptyEncoding(others);
        assert f.payload[..n - 8] == f.payload && f.payload + [] == f.payload;
      }
    }
  }

  lemma EmptyEncoding(frames: seq<Frame>)
    requires forall i :: 0 <= i < |frames| ==> Encodable(frames[i])
    ensures Encode(frames) == [] <==> frames == []
  {
    if frames != [] {
      assert |Encode(frames)| >= |Header(frames[0])|;
    }
  }

  lemma StartsWithHeader(frames: seq<Frame>)
    requires frames != [] && forall i :: 0 <= i < |frames| ==> Encodable(frames[i])
    ensures |Encode(frames)| >= HEADER_LENGTH && IsHeader(Encode(frames))
  {
    HeaderAnnounces(frames[0]);
    assert Encode(frames) == Header(frames[0]) + (frames[0].payload + Encode(frames[1..]));
  }

  /** Decoding an encoded, non-empty list of frames gives the payloads back. */
  lemma DecodeInvertsEncode(frames: seq<Frame>)
    requires frames != [] && forall i :: 0 <= i < |frames| ==> Encodable(frames[i])
    ensures DecodeStream(Encode(frames)) == Payloads(frames)
  {
    var all := Encode(frames);
    TruncationDecodesToPrefix(frames, |all|);
    WholeSlice(all);
  }

  lemma WholeSlice(b: seq<Byte>)
    ensures b[..|b|] == b
  {
  }

  /** Cut to at least a header's length, a stream decodes to a prefix of its
      payloads, and to all of them if nothing is cut off. */
  lemma TruncationDecodesToPrefix(frames: seq<Frame>, n: nat)
    requires frames != [] && forall i :: 0 <= i < |frames| ==> Encodable(frames[i])
    requires n <= |Encode(frames)|
    ensures |Encode(frames)| >= HEADER_LENGTH
    ensures HEADER_LENGTH <= n ==> DecodeStream(Encode(frames)[..n]) <= Payloads(frames)
    ensures n == |Encode(frames)| ==> DecodeStream(Encode(frames)[..n]) == Payloads(frames)
    ensures HEADER_LENGTH <= n ==> DecodeStream(Encode(frames)[..n]) == PayloadWithin(frames, n)
  {
    StartsWithHeader(frames);
    TruncatedFrames(frames, n);
    WithinIsPrefix(frames, n);
    if HEADER_LENGTH <= n { FramedPrefix(Encode(frames), n); }
  }

  /** Bytes that are no frame are passed on as they are, at the start of a stream
      or after its frames; there a rest shorter than a header is dropped. */
  lemma TrailingBytes(frames: seq<Frame>, raw: seq<Byte>)
    requires forall i :: 0 <= i < |frames| ==> Encodable(frames[i])
    requires |raw| < 8 || raw[1] != 0 || raw[2] != 0 || raw[3] != 0
    ensures DecodeStream(raw) == raw
    ensures frames != [] ==>
              DecodeStream(Encode(frames) + raw) == Payloads(frames) + if |raw| < 8 then [] else raw
  {
    if frames != [] {
      var b := Encode(frames) + raw;
      StartsWithHeader(frames);
      assert b[1] == Encode(frames)[1] && b[2] == Encode(frames)[2] && b[3] == Encode(frames)[3];
      FramesThen(frames, raw);
    }
  }

  lemma {:induction false} FramesThen(frames: seq<Frame>, raw: seq<Byte>)
    requires forall i :: 0 <= i < |frames| ==> Encodable(frames[i])
    ensures DecodeFrames(Encode(frames) + raw) == Payloads(frames) + DecodeFrames(raw)
  {
    if frames == [] {
      assert Encode(frames) + raw == raw && Payloads(frames) + DecodeFrames(raw) == DecodeFrames(raw);
    } else {
      var f, rest := frames[0], Encode(frames[1..]) + raw;
      FramesThen(frames[1..], raw);
      assert Encode(frames) + raw == Header(f) + (f.payload + rest);
      DecodeOneFrame(f, f.payload + rest);
      Parts(f.payload, rest);
      Regroup(f.payload, Payloads(frames[1..]), DecodeFrames(raw));
    }
  }

  lemma Parts(payload: seq<Byte>, rest: seq<Byte>)
    ensures (payload + rest)[..|payload|] == payload && (payload + rest)[|payload|..] == rest
    ensures rest == [] ==> payload + rest == payload && payload + DecodeFrames(rest) == payload
  {
  }

  lemma FramedPrefix(b: seq<Byte>, n: nat)
    requires HEADER_LENGTH <= n <= |b| && IsHeader(b)
    ensures DecodeStream(b[..n]) == DecodeFrames(b[..n])
  {
    assert b[..n][1] == b[1] && b[..n][2] == b[2] && b[..n][3] == b[3];
  }
}
