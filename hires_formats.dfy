/** The byte formats the hi-res image viewer reads: the Beagle Bros run-length "scrunched" screen,
    the Apple IIgs PackBytes stream, the GIF signature, the 4-bit super hi-res gray screen and the
    aux-type names shown in the file's text view. An unpacker that would run off either array returns
    None, where the original throws an index exception. */
module HiResFormats {
  import opened Util

  /** One hi-res screen: 0x2000 bytes. */
  const SCREEN_SIZE := 0x2000

  /** The output of the PackBytes unpacker: 32768 bytes. */
  const UNPACKED_SIZE := 32768

  /** n copies of b; nothing when n <= 0. */
  function Fill(b: byte, n: int): (r: seq<byte>)
    ensures |r| == if n <= 0 then 0 else n
    ensures forall k :: 0 <= k < |r| ==> r[k] == b
  {
    if n <= 0 then [] else seq(n, _ => b)
  }

  // ----------------------------------------------------------------------------------------------
  // unscrunch

  /** What the unscrunch loop produces from input position p2 with output acc so far: 0x80 or 0xFF
      is followed by a signed repeat count and repeats the marker with bit 7 cleared; any other byte
      is copied. The loop stops once the screen is full; running out of input, or a repeat past the
      end of the screen, fails. */
  function Unscrunched(src: seq<byte>, p2: nat, acc: seq<byte>): (r: Option<seq<byte>>)
    requires |acc| <= SCREEN_SIZE
    ensures r.Some? ==> |r.value| == SCREEN_SIZE && acc <= r.value
    decreases |src| - p2
  {
    if |acc| == SCREEN_SIZE then Some(acc)
    else if p2 >= |src| then None
    else if src[p2] == 0x80 || src[p2] == 0xFF then
      if p2 + 1 >= |src| then None
      else
        var n := SignedByte(src[p2 + 1]);
        if |acc| + n > SCREEN_SIZE then None
        else Unscrunched(src, p2 + 2, acc + Fill(src[p2] % 128, n))
    else Unscrunched(src, p2 + 1, acc + [src[p2]])
  }

  /** `unscrunch`: expands a scrunched screen into a fresh 0x2000-byte array. */
  method Unscrunch(src: seq<byte>) returns (r: Option<seq<byte>>)
    ensures r == Unscrunched(src, 0, [])
    ensures r.Some? ==> |r.value| == SCREEN_SIZE
  {
    var dst := new byte[SCREEN_SIZE](_ => 0);
    var p1, p2 := 0, 0;
    assert dst[..0] == [];
    while p1 < dst.Length
      invariant 0 <= p1 <= dst.Length && 0 <= p2 <= |src|
      invariant Unscrunched(src, p2, dst[..p1]) == Unscrunched(src, 0, [])
      decreases |src| - p2
    {
      if p2 >= |src| {
        return None;                                  // reading past the input
      }
      ghost var pre := dst[..p1];
      ghost var at := p2;
      var b := src[p2];
      p2 := p2 + 1;
      if b == 0x80 || b == 0xFF {
        b := b % 128;
        if p2 >= |src| {
          return None;
        }
        var rpt := SignedByte(src[p2]);
        p2 := p2 + 1;
        var i := 0;
        ghost var start := p1;
        while i < rpt
          invariant 0 <= i && (rpt > 0 ==> i <= rpt) && (rpt <= 0 ==> i == 0)
          invariant p1 == start + i && p1 <= dst.Length
          invariant dst[..p1] == pre + Fill(b, i)
        {
          if p1 == dst.Length {
            return None;                              // writing past the screen
          }
          dst[p1] := b;
          assert dst[..p1 + 1] == dst[..p1] + [b];
          p1 := p1 + 1;
          i := i + 1;
          assert Fill(b, i) == Fill(b, i - 1) + [b];
        }
        assert Fill(b, i) == Fill(src[at] % 128, rpt);
      } else {
        dst[p1] := b;
        assert dst[..p1 + 1] == pre + [b];
        p1 := p1 + 1;
      }
    }
    assert dst[..] == dst[..p1];
    return Some(dst[..]);
  }

  /** A scrunched token: a literal byte, or a marker (0x80 for zeros, 0xFF for 0x7F) and a count. */
  datatype Run = Literal(b: byte) | Repeat(marker: byte, count: byte)

  predicate ValidRun(t: Run)
  {
    match t
    case Literal(b) => b != 0x80 && b != 0xFF
    case Repeat(m, n) => (m == 0x80 || m == 0xFF) && 0 < n < 128
  }

  function RunBytes(t: Run): seq<byte>
  {
    match t
    case Literal(b) => [b]
    case Repeat(m, n) => [m, n]
  }

  function RunExpansion(t: Run): (r: seq<byte>)
    ensures ValidRun(t) ==> |r| >= 1
  {
    match t
    case Literal(b) => [b]
    case Repeat(m, n) => Fill(m % 128, n)
  }

  function Scrunched(ts: seq<Run>): seq<byte>
  {
    if ts == [] then [] else RunBytes(ts[0]) + Scrunched(ts[1..])
  }

  function Expansion(ts: seq<Run>): seq<byte>
  {
    if ts == [] then [] else RunExpansion(ts[0]) + Expansion(ts[1..])
  }

  /** The bytes bs are written out at position p of src. */
  predicate BytesAt(src: seq<byte>, p: nat, bs: seq<byte>)
  {
    p + |bs| <= |src| && forall k {:trigger bs[k]} :: 0 <= k < |bs| ==> src[p + k] == bs[k]
  }

  /** Bytes written out back to back: each part sits where the one before it ends. */
  lemma BytesAtSplit(src: seq<byte>, p: nat, a: seq<byte>, b: seq<byte>)
    requires BytesAt(src, p, a + b)
    ensures BytesAt(src, p, a) && BytesAt(src, p + |a|, b)
  {
    forall k | 0 <= k < |a|
      ensures src[p + k] == a[k]
    {
      assert (a + b)[k] == a[k];
    }
    forall k | 0 <= k < |b|
      ensures src[p + |a| + k] == b[k]
    {
      assert (a + b)[|a| + k] == b[k];
    }
  }

  /** The tokens ts are written out one after another from position p of src. */
  predicate TokensAt(src: seq<byte>, p: nat, ts: seq<Run>)
    decreases |ts|
  {
    ts == [] || (BytesAt(src, p, RunBytes(ts[0])) && TokensAt(src, p + |RunBytes(ts[0])|, ts[1..]))
  }

  /** One token read from the input appends its expansion. */
  lemma UnscrunchRun(src: seq<byte>, p: nat, acc: seq<byte>, t: Run)
    requires ValidRun(t) && |acc| + |RunExpansion(t)| <= SCREEN_SIZE
    requires BytesAt(src, p, RunBytes(t))
    ensures Unscrunched(src, p, acc) == Unscrunched(src, p + |RunBytes(t)|, acc + RunExpansion(t))
  {
    match t
    case Literal(b) =>
      assert src[p + 0] == RunBytes(t)[0] == b;
    case Repeat(m, n) =>
      assert src[p + 0] == RunBytes(t)[0] == m;
      assert src[p + 1] == RunBytes(t)[1] == n;
      assert SignedByte(n) == n;
  }

  /** Tokens read in order append their expansions in order. */
  lemma {:induction false} UnscrunchRuns(src: seq<byte>, p: nat, acc: seq<byte>, ts: seq<Run>)
    requires forall k :: 0 <= k < |ts| ==> ValidRun(ts[k])
    requires |acc| + |Expansion(ts)| <= SCREEN_SIZE
    requires TokensAt(src, p, ts)
    ensures Unscrunched(src, p, acc) == Unscrunched(src, p + |Scrunched(ts)|, acc + Expansion(ts))
    decreases |ts|
  {
    if ts == [] {
      assert acc + [] == acc;
    } else {
      var t, rest := ts[0], ts[1..];
      var p', acc' := p + |RunBytes(t)|, acc + RunExpansion(t);
      assert Expansion(ts) == RunExpansion(t) + Expansion(rest);
      assert forall k :: 0 <= k < |rest| ==> rest[k] == ts[k + 1];
      UnscrunchRun(src, p, acc, t);
      UnscrunchRuns(src, p', acc', rest);
      AppendAssoc(acc, RunExpansion(t), Expansion(rest));
    }
  }

  /** Scrunched tokens, wherever they are written out, are read back token by token. */
  lemma {:induction false} ScrunchedTokens(src: seq<byte>, p: nat, ts: seq<Run>)
    requires BytesAt(src, p, Scrunched(ts))
    ensures TokensAt(src, p, ts)
    decreases |ts|
  {
    if ts != [] {
      assert Scrunched(ts) == RunBytes(ts[0]) + Scrunched(ts[1..]);
      BytesAtSplit(src, p, RunBytes(ts[0]), Scrunched(ts[1..]));
      ScrunchedTokens(src, p + |RunBytes(ts[0])|, ts[1..]);
    }
  }

  /** Round trip: tokens that expand to exactly one screen unscrunch to that screen, whatever follows. */
  lemma UnscrunchRoundTrip(ts: seq<Run>, rest: seq<byte>)
    requires forall k :: 0 <= k < |ts| ==> ValidRun(ts[k])
    requires |Expansion(ts)| == SCREEN_SIZE
    ensures Unscrunched(Scrunched(ts) + rest, 0, []) == Some(Expansion(ts))
  {
    var src := Scrunched(ts) + rest;
    assert BytesAt(src, 0, Scrunched(ts)) by {
      forall k | 0 <= k < |Scrunched(ts)| ensures src[k] == Scrunched(ts)[k] { }
    }
    ScrunchedTokens(src, 0, ts);
    UnscrunchRuns(src, 0, [], ts);
    assert [] + Expansion(ts) == Expansion(ts);
  }

  // ----------------------------------------------------------------------------------------------
  // unpackBytes (Apple IIgs PackBytes)

  /** n copies of a 4-byte pattern. */
  function Cycle(quad: seq<byte>, n: nat): (r: seq<byte>)
    requires |quad| == 4
    ensures |r| == 4 * n
  {
    if n == 0 then [] else Cycle(quad, n - 1) + quad
  }

  /** The packet whose control byte is at ptr: what it emits and where the next control byte is.
      The control byte holds a mode (top two bits) and a count c (low six bits plus one): mode 0
      copies c bytes, mode 1 repeats the next byte c times, mode 2 repeats the next four bytes c
      times, mode 3 repeats the next byte 4c times. None when the packet runs past the input. */
  function PacketAt(src: seq<byte>, ptr: nat): (r: Option<(seq<byte>, nat)>)
    requires ptr < |src|
    ensures r.Some? ==> ptr < r.value.1 <= |src|
  {
    var mode: int, count: int, q := src[ptr] / 64, src[ptr] % 64 + 1, ptr + 1;
    if mode == 0 then (if q + count > |src| then None else Some((src[q..q + count], q + count)))
    else if mode == 1 then (if q + 1 > |src| then None else Some((Fill(src[q], count), q + 1)))
    else if mode == 2 then (if q + 4 > |src| then None else Some((Cycle(src[q..q + 4], count), q + 4)))
    else (if q + 1 > |src| then None else Some((Fill(src[q], 4 * count), q + 1)))
  }

  /** What the unpack loop produces from input position ptr with output acc so far; a packet that
      runs past the input, or output past 32768 bytes, fails. */
  function Unpacked(src: seq<byte>, ptr: nat, acc: seq<byte>): (r: Option<seq<byte>>)
    requires ptr <= |src| && |acc| <= UNPACKED_SIZE
    ensures r.Some? ==> |r.value| <= UNPACKED_SIZE
    decreases |src| - ptr
  {
    if ptr == |src| then Some(acc)
    else
      match PacketAt(src, ptr)
      case None => None
      case Some((bytes, next)) =>
        if |acc| + |bytes| > UNPACKED_SIZE then None else Unpacked(src, next, acc + bytes)
  }

  /** The unpacked buffer: what the packets emit, then zeros up to 32768 bytes. */
  function Unpack(src: seq<byte>): (r: Option<seq<byte>>)
    ensures r.Some? ==> |r.value| == UNPACKED_SIZE
  {
    match Unpacked(src, 0, [])
    case None => None
    case Some(a) => Some(a + Zeros(UNPACKED_SIZE - |a|))
  }

  /** Writes `bytes` into the output one at a time from newPtr, failing at the first write past
      the end of the array. */
  method Emit(newBuf: array<byte>, newPtr: int, bytes: seq<byte>) returns (next: int, ok: bool)
    requires newBuf.Length == UNPACKED_SIZE && 0 <= newPtr <= UNPACKED_SIZE
    requires forall k :: newPtr <= k < UNPACKED_SIZE ==> newBuf[k] == 0
    modifies newBuf
    ensures ok <==> newPtr + |bytes| <= UNPACKED_SIZE
    ensures ok ==> next == newPtr + |bytes| && newBuf[..next] == old(newBuf[..newPtr]) + bytes
    ensures ok ==> forall k :: next <= k < UNPACKED_SIZE ==> newBuf[k] == 0
  {
    next := newPtr;
    var i := 0;
    while i < |bytes|
      invariant 0 <= i <= |bytes| && next == newPtr + i && next <= UNPACKED_SIZE
      invariant newBuf[..next] == old(newBuf[..newPtr]) + bytes[..i]
      invariant forall k :: next <= k < UNPACKED_SIZE ==> newBuf[k] == 0
    {
      if next == UNPACKED_SIZE {
        return next, false;
      }
      newBuf[next] := bytes[i];
      assert newBuf[..next + 1] == newBuf[..next] + [bytes[i]];
      assert bytes[..i + 1] == bytes[..i] + [bytes[i]];
      next, i := next + 1, i + 1;
    }
    assert bytes[..i] == bytes;
    ok := true;
  }

  /** `unpackBytes`: unpacks into a fresh 32768-byte array. */
  method UnpackBytes(buffer: seq<byte>) returns (r: Option<seq<byte>>)
    ensures r == Unpack(buffer)
  {
    var newBuf := new byte[UNPACKED_SIZE](_ => 0);
    var ptr, newPtr := 0, 0;
    assert newBuf[..0] == [];
    while ptr < |buffer|
      invariant 0 <= ptr <= |buffer| && 0 <= newPtr <= UNPACKED_SIZE
      invariant Unpacked(buffer, ptr, newBuf[..newPtr]) == Unpacked(buffer, 0, [])
      invariant forall k :: newPtr <= k < UNPACKED_SIZE ==> newBuf[k] == 0
      decreases |buffer| - ptr
    {
      ghost var at := ptr;
      var mode: int := buffer[ptr] / 64;
      var count: int := buffer[ptr] % 64 + 1;
      ptr := ptr + 1;
      var bytes: seq<byte>;
      if mode == 0 {
        if ptr + count > |buffer| {
          return None;
        }
        bytes := buffer[ptr..ptr + count];
        ptr := ptr + count;
      } else if mode == 1 || mode == 3 {
        if ptr + 1 > |buffer| {
          return None;
        }
        bytes := Fill(buffer[ptr], if mode == 1 then count else 4 * count);
        ptr := ptr + 1;
      } else {
        if ptr + 4 > |buffer| {
          return None;
        }
        bytes := Cycle(buffer[ptr..ptr + 4], count);
        ptr := ptr + 4;
      }
      assert PacketAt(buffer, at) == Some((bytes, ptr));
      var ok;
      newPtr, ok := Emit(newBuf, newPtr, bytes);
      if !ok {
        return None;
      }
    }
    assert newBuf[..] == newBuf[..newPtr] + Zeros(UNPACKED_SIZE - newPtr);
    return Some(newBuf[..]);
  }

  /** A PackBytes packet, as an encoder would write it. */
  datatype Packet =
    | Literals(bytes: seq<byte>)
    | RepeatByte(b: byte, count: nat)
    | RepeatQuad(quad: seq<byte>, count: nat)
    | RepeatByteQuad(b: byte, count: nat)

  predicate ValidPacket(p: Packet)
  {
    match p
    case Literals(bs) => 1 <= |bs| <= 64
    case RepeatByte(_, n) => 1 <= n <= 64
    case RepeatQuad(q, n) => |q| == 4 && 1 <= n <= 64
    case RepeatByteQuad(_, n) => 1 <= n <= 64
  }

  /** The bytes of one packet: the control byte, then the literals, the byte or the pattern. */
  function PacketBytes(p: Packet): (r: seq<byte>)
    requires ValidPacket(p)
  {
    match p
    case Literals(bs) => [|bs| - 1] + bs
    case RepeatByte(b, n) => [64 + n - 1, b]
    case RepeatQuad(q, n) => [128 + n - 1] + q
    case RepeatByteQuad(b, n) => [192 + n - 1, b]
  }

  /** What one packet emits. */
  function PacketExpansion(p: Packet): (r: seq<byte>)
    requires ValidPacket(p)
  {
    match p
    case Literals(bs) => bs
    case RepeatByte(b, n) => Fill(b, n)
    case RepeatQuad(q, n) => Cycle(q, n)
    case RepeatByteQuad(b, n) => Fill(b, 4 * n)
  }

  /** A packet an encoder can write: one to 64 literals, or a count of one to 64. */
  type PackBytesPacket = p: Packet | ValidPacket(p) witness Literals([0])

  function Packed(ps: seq<PackBytesPacket>): seq<byte>
  {
    if ps == [] then [] else PacketBytes(ps[0]) + Packed(ps[1..])
  }

  function Emitted(ps: seq<PackBytesPacket>): seq<byte>
  {
    if ps == [] then [] else PacketExpansion(ps[0]) + Emitted(ps[1..])
  }

  /** What each mode consumes and emits: mode 0 takes 1 + c bytes and emits c, mode 1 takes 2 and
      emits c, mode 2 takes 5 and emits 4c, mode 3 takes 2 and emits 4c. */
  lemma PacketSizes(p: PackBytesPacket)
    ensures p.Literals? ==> |PacketBytes(p)| == 1 + |p.bytes| && |PacketExpansion(p)| == |p.bytes|
    ensures p.RepeatByte? ==> |PacketBytes(p)| == 2 && |PacketExpansion(p)| == p.count
    ensures p.RepeatQuad? ==> |PacketBytes(p)| == 5 && |PacketExpansion(p)| == 4 * p.count
    ensures p.RepeatByteQuad? ==> |PacketBytes(p)| == 2 && |PacketExpansion(p)| == 4 * p.count
    ensures PacketBytes(p)[0] / 64 == (match p case Literals(_) => 0 case RepeatByte(_, _) => 1
                                               case RepeatQuad(_, _) => 2 case RepeatByteQuad(_, _) => 3)
  {
  }

  /** Bytes written out at q are the slice of src that starts at q. */
  lemma SliceAt(src: seq<byte>, q: nat, bs: seq<byte>)
    requires BytesAt(src, q, bs)
    ensures src[q..q + |bs|] == bs
  {
    forall j | 0 <= j < |bs|
      ensures src[q..q + |bs|][j] == bs[j]
    {
    }
  }

  /** A packet written out at ptr is read back as that packet: its expansion, and the position
      just past it. */
  lemma PacketAtPacket(src: seq<byte>, ptr: nat, p: Packet)
    requires ValidPacket(p) && BytesAt(src, ptr, PacketBytes(p))
    ensures ptr < |src| && PacketAt(src, ptr) == Some((PacketExpansion(p), ptr + |PacketBytes(p)|))
  {
    assert src[ptr + 0] == PacketBytes(p)[0];
    match p
    case Literals(bs) =>
      assert src[ptr] / 64 == 0 && src[ptr] % 64 + 1 == |bs|;
      BytesAtSplit(src, ptr, [|bs| - 1], bs);
      SliceAt(src, ptr + 1, bs);
    case RepeatByte(b, c) =>
      assert src[ptr] / 64 == 1 && src[ptr] % 64 + 1 == c;
      assert src[ptr + 1] == PacketBytes(p)[1] == b;
    case RepeatQuad(q, c) =>
      assert src[ptr] / 64 == 2 && src[ptr] % 64 + 1 == c;
      BytesAtSplit(src, ptr, [128 + c - 1], q);
      SliceAt(src, ptr + 1, q);
    case RepeatByteQuad(b, c) =>
      assert src[ptr] / 64 == 3 && src[ptr] % 64 + 1 == c;
      assert src[ptr + 1] == PacketBytes(p)[1] == b;
  }

  /** One packet read from the input appends its expansion. */
  lemma UnpackPacket(src: seq<byte>, ptr: nat, acc: seq<byte>, p: Packet, next: nat, acc': seq<byte>)
    requires ValidPacket(p) && |acc| + |PacketExpansion(p)| <= UNPACKED_SIZE
    requires BytesAt(src, ptr, PacketBytes(p))
    requires next == ptr + |PacketBytes(p)| && acc' == acc + PacketExpansion(p)
    ensures Unpacked(src, ptr, acc) == Unpacked(src, next, acc')
  {
    PacketAtPacket(src, ptr, p);
  }

  /** No packets: nothing is read and nothing is emitted. */
  lemma PackedEmpty(ptr: nat, acc: seq<byte>, ps: seq<PackBytesPacket>)
    requires ps == []
    ensures ptr + |Packed(ps)| == ptr && acc + Emitted(ps) == acc
  {
    assert acc + [] == acc;
  }

  /** The first packet and the rest: the rest is written out after the first packet's bytes, and
      all of them emit the first packet's expansion, then what the rest emit. */
  lemma PackedStep(ptr: nat, acc: seq<byte>, ps: seq<PackBytesPacket>, end: nat, out: seq<byte>)
    requires ps != [] && end == ptr + |Packed(ps)| && out == acc + Emitted(ps)
    ensures Packed(ps) == PacketBytes(ps[0]) + Packed(ps[1..])
    ensures end == (ptr + |PacketBytes(ps[0])|) + |Packed(ps[1..])|
    ensures out == (acc + PacketExpansion(ps[0])) + Emitted(ps[1..])
    ensures |acc| + |PacketExpansion(ps[0])| <= |out|
  {
    AppendAssoc(acc, PacketExpansion(ps[0]), Emitted(ps[1..]));
  }

  /** Packets read in order append their expansions in order: reading the packets ps written out
      from ptr moves the input to end and the output to out. */
  lemma {:induction false} UnpackPackets(src: seq<byte>, ptr: nat, acc: seq<byte>, ps: seq<PackBytesPacket>,
                                         end: nat, out: seq<byte>)
    requires end == ptr + |Packed(ps)| && out == acc + Emitted(ps) && |out| <= UNPACKED_SIZE
    requires BytesAt(src, ptr, Packed(ps))
    ensures Unpacked(src, ptr, acc) == Unpacked(src, end, out)
    decreases |ps|
  {
    if ps == [] {
      PackedEmpty(ptr, acc, ps);
    } else {
      var p, rest := ps[0], ps[1..];
      var ptr', acc' := ptr + |PacketBytes(p)|, acc + PacketExpansion(p);
      PackedStep(ptr, acc, ps, end, out);
      BytesAtSplit(src, ptr, PacketBytes(p), Packed(rest));
      UnpackPacket(src, ptr, acc, p, ptr', acc');
      UnpackPackets(src, ptr', acc', rest, end, out);
    }
  }

  /** Round trip: packed packets unpack to what they emit, zero-filled to 32768 bytes. */
  lemma UnpackRoundTrip(ps: seq<PackBytesPacket>)
    requires |Emitted(ps)| <= UNPACKED_SIZE
    ensures Unpack(Packed(ps)) == Some(Emitted(ps) + Zeros(UNPACKED_SIZE - |Emitted(ps)|))
  {
    var src := Packed(ps);
    assert BytesAt(src, 0, src);
    EmptyAppend(Emitted(ps));
    UnpackPackets(src, 0, [], ps, |src|, Emitted(ps));
  }

  // ----------------------------------------------------------------------------------------------
  // small helpers

  const GIF89A: seq<byte> := [0x47, 0x49, 0x46, 0x38, 0x39, 0x61]
  const GIF87A: seq<byte> := [0x47, 0x49, 0x46, 0x38, 0x37, 0x61]

  /** The bytes of an ASCII string. */
  function Ascii(s: string): seq<byte>
    requires forall k :: 0 <= k < |s| ==> s[k] as int < 128
  {
    seq(|s|, k requires 0 <= k < |s| => s[k] as int)
  }

  /** `isGif`: the first six bytes spell one of the two GIF signatures. */
  predicate IsGif(buffer: seq<byte>)
  {
    |buffer| >= 6 && (buffer[..6] == GIF89A || buffer[..6] == GIF87A)
  }

  /** The signatures are the ASCII text "GIF89a" and "GIF87a", and only the first six bytes matter. */
  lemma IsGifSignature(buffer: seq<byte>, rest: seq<byte>)
    ensures GIF89A == Ascii("GIF89a") && GIF87A == Ascii("GIF87a")
    ensures IsGif(buffer) <==> |buffer| >= 6 && (buffer[..6] == Ascii("GIF89a") || buffer[..6] == Ascii("GIF87a"))
    ensures IsGif(buffer) ==> IsGif(buffer + rest)
  {
    assert Ascii("GIF89a") == GIF89A;
    assert Ascii("GIF87a") == GIF87A;
    if IsGif(buffer) {
      assert (buffer + rest)[..6] == buffer[..6];
    }
  }

  /** A 4-bit pixel on the gray super hi-res screen: white when nonzero. */
  function Gray(nibble: int): int
  {
    if nibble > 0 then 255 else 0
  }

  /** The gray pixels of some bytes: two per byte, high nibble first. */
  function GrayPixels(bs: seq<byte>): (r: seq<int>)
    ensures |r| == 2 * |bs|
    ensures forall p :: 0 <= p < |bs| ==> r[2 * p] == Gray(bs[p] / 16) && r[2 * p + 1] == Gray(bs[p] % 16)
  {
    if bs == [] then []
    else GrayPixels(bs[..|bs| - 1]) + [Gray(bs[|bs| - 1] / 16), Gray(bs[|bs| - 1] % 16)]
  }

  /** The 320 x 200 gray screen `makeScreen2` draws: the pixels of the first 32000 bytes. */
  function Screen2(buffer: seq<byte>): (r: seq<int>)
    requires |buffer| >= 32000
    ensures |r| == 64000
  {
    GrayPixels(buffer[..32000])
  }

  /** The aux-type description the text view shows for a graphics file type ("" for none). */
  function AuxText(fileType: int, auxType: int): string
  {
    if fileType == 8 then
      if auxType < 0x4000 then "Graphics File"
      else if auxType == 0x4000 then "Packed Hi-Res File"
      else if auxType == 0x4001 then "Packed Double Hi-Res File"
      else ""
    else if fileType == 192 then
      if auxType == 1 then "Packed Super Hi-Res Image"
      else if auxType == 2 then "Super Hi-Res Image"
      else if auxType == 3 then "Packed QuickDraw II PICT File"
      else ""
    else if fileType == 193 then
      if auxType == 0 then "Super Hi-res Screen Image"
      else if auxType == 1 then "QuickDraw PICT File"
      else if auxType == 2 then "Super Hi-Res 3200 color image"
      else ""
    else ""
  }

  /** An aux line is shown exactly for these (file type, aux type) pairs, and the packed super
      hi-res image, the one case whose text view unpacks the buffer, is 192 with aux 1. */
  lemma AuxTextShown(fileType: int, auxType: int)
    ensures AuxText(fileType, auxType) != "" <==>
              (fileType == 8 && auxType <= 0x4001) || (fileType == 192 && 1 <= auxType <= 3)
              || (fileType == 193 && 0 <= auxType <= 2)
    ensures AuxText(fileType, auxType) == "Packed Super Hi-Res Image" <==> fileType == 192 && auxType == 1
  {
  }

  /** An image holding the gray pixels of the first 32000 bytes, pair by pair, is the screen. */
  lemma ScreenPixels(s: seq<int>, buffer: seq<byte>)
    requires |buffer| >= 32000 && |s| == 64000
    requires forall p :: 0 <= p < 32000 ==> s[2 * p] == Gray(buffer[p] / 16) && s[2 * p + 1] == Gray(buffer[p] % 16)
    ensures s == Screen2(buffer)
  {
    var r := Screen2(buffer);
    forall e | 0 <= e < 64000
      ensures s[e] == r[e]
    {
      var p := e / 2;
      assert buffer[..32000][p] == buffer[p];
      if e % 2 == 0 {
        assert e == 2 * p;
      } else {
        assert e == 2 * p + 1;
      }
    }
  }
}
