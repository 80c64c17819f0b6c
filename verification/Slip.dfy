/** SLIP framing (RFC 1055, section "PROTOCOL") as slip_udp_serial.cpp codes it. */
module Slip {
  import opened Bytes
  import opened Seqs

  const MTU := 1500

  const END: byte := 0xC0
  const ESC: byte := 0xDB
  const ESC_END: byte := 0xDC
  const ESC_ESC: byte := 0xDD

  function EncodeByte(b: byte): (e: seq<byte>)
    ensures 1 <= |e| <= 2
  {
    if b == END then [ESC, ESC_END] else if b == ESC then [ESC, ESC_ESC] else [b]
  }

  function EncodeBlock(data: seq<byte>): (e: seq<byte>)
    ensures |data| <= |e| <= 2 * |data|
  {
    if data == [] then [] else EncodeByte(data[0]) + EncodeBlock(data[1..])
  }

  function EncodeFrame(packet: seq<byte>): (r: seq<byte>) {
    [END] + EncodeBlock(packet) + [END]
  }

  function EncodeFrames(packets: seq<seq<byte>>): (r: seq<byte>) {
    if packets == [] then [] else EncodeFrame(packets[0]) + EncodeFrames(packets[1..])
  }

  /** What one call of the decoder returns, and the part of the line it leaves unread. */
  datatype Received = Received(packet: seq<byte>, rest: seq<byte>)

  /** The decoder between two bytes: `started` once an END was seen, `acc` collected so far.
      The end of `line` is the serial port's timeout. */
  function Receive(line: seq<byte>, started: bool, acc: seq<byte>): (r: Received)
    ensures |acc| <= MTU ==> |r.packet| <= MTU
    ensures |r.rest| <= |line|
    ensures line != [] ==> |r.rest| < |line|
    decreases |line|
  {
    if line == [] then Received(acc, [])
    else if line[0] == END then
      if started && acc != [] then Received(acc, line[1..]) else Receive(line[1..], true, acc)
    else if !started then Receive(line[1..], false, acc)
    else if |acc| == MTU then Received([], line[1..])
    else if line[0] == ESC then
      if |line| == 1 then Received(acc, [])
      else Receive(line[2..], true, acc + Unescape(line[1]))
    else Receive(line[1..], true, acc + [line[0]])
  }

  /** The octet an escape stands for; an unknown escape stands for nothing. */
  function Unescape(b: byte): (r: seq<byte>) {
    if b == ESC_END then [END] else if b == ESC_ESC then [ESC] else []
  }

  /** The results of calling the decoder until the line is empty, the first call resuming in the given state. */
  function ReceiveAll(line: seq<byte>, started: bool, acc: seq<byte>): (r: seq<seq<byte>>)
    decreases |line|
  {
    var r := Receive(line, started, acc);
    [r.packet] + if r.rest == [] then [] else ReceiveAll(r.rest, false, [])
  }

  predicate Datagrams(packets: seq<seq<byte>>) {
    forall i | 0 <= i < |packets| :: 1 <= |packets[i]| <= MTU
  }

  // ---------- single steps of the decoder ----------

  lemma StepEnd(rest: seq<byte>, started: bool, acc: seq<byte>)
    ensures Receive([END] + rest, started, acc) ==
      if started && acc != [] then Received(acc, rest) else Receive(rest, true, acc)
  {
    HeadTail([END], rest);
    Empty(rest);
  }

  /** The one or two octets an octet is encoded to are decoded to that octet. */
  lemma StepByte(b: byte, rest: seq<byte>, acc: seq<byte>)
    requires |acc| < MTU
    ensures Receive(EncodeByte(b) + rest, true, acc) == Receive(rest, true, acc + [b])
  {
    var e := EncodeByte(b);
    DropPrefix(e, rest);
    HeadTail(e, rest);
    assert |e| == 2 ==> (e + rest)[1] == e[1];
  }

  lemma StepOverflow(b: byte, rest: seq<byte>, acc: seq<byte>)
    requires |acc| == MTU && b != END
    ensures Receive([b] + rest, true, acc) == Received([], rest)
  {
    HeadTail([b], rest);
    Empty(rest);
  }

  lemma StepSkip(b: byte, rest: seq<byte>)
    requires b != END
    ensures Receive([b] + rest, false, []) == Receive(rest, false, [])
  {
    HeadTail([b], rest);
    Empty(rest);
  }

  /** The octets on the line: 0xC0 delimits, and 0xDB announces that 0xDC or 0xDD stands for 0xC0 or 0xDB. */
  lemma OctetsOnLine(packet: seq<byte>, b: byte)
    ensures EncodeByte(b) == if b == 0xC0 then [0xDB, 0xDC] else if b == 0xDB then [0xDB, 0xDD] else [b]
    ensures EncodeFrame(packet) == [0xC0] + EncodeBlock(packet) + [0xC0]
    ensures EncodeFrame([0x45, 0xC0, 0xDB, 7]) == [0xC0, 0x45, 0xDB, 0xDC, 0xDB, 0xDD, 7, 0xC0]
  {
    var p: seq<byte> := [0x45, 0xC0, 0xDB, 7];
    assert p[1..] == [0xC0, 0xDB, 7] && p[1..][1..] == [0xDB, 7] && p[1..][1..][1..] == [7];
    assert EncodeBlock([7]) == [7];
    assert EncodeBlock([0xDB, 7]) == [0xDB, 0xDD] + EncodeBlock([7]);
    assert EncodeBlock([0xC0, 0xDB, 7]) == [0xDB, 0xDC] + EncodeBlock([0xDB, 7]);
    assert EncodeBlock(p) == [0x45] + EncodeBlock([0xC0, 0xDB, 7]);
  }

  /** What the decoder does with a broken line: an escape of anything else is dropped, one that is cut off ends the
      datagram, and so does, leaving nothing of it, an octet more than 1500. */
  lemma BrokenLine(b: byte, rest: seq<byte>, acc: seq<byte>)
    ensures |acc| < 1500 && b != 0xDC && b != 0xDD ==>
      Receive([0xDB, b] + rest, true, acc) == Receive(rest, true, acc)
    ensures |acc| < 1500 ==> Receive([0xDB], true, acc) == Received(acc, [])
    ensures |acc| == 1500 && b != 0xC0 ==> Receive([b] + rest, true, acc) == Received([], rest)
  {
    var line: seq<byte> := [0xDB, b];
    DropPrefix(line, rest);
    HeadTail(line, rest);
    assert (line + rest)[1] == b;
    Empty(acc);
    if |acc| == 1500 && b != 0xC0 { StepOverflow(b, rest, acc); }
  }

  // ---------- one frame ----------

  /** The END octet only ever delimits. */
  lemma {:induction false} NoEndInside(data: seq<byte>)
    ensures END !in EncodeBlock(data)
  {
    if data != [] { NoEndInside(data[1..]); }
  }

  lemma {:induction false} EncodeBlockAppend(a: seq<byte>, b: seq<byte>)
    ensures EncodeBlock(a + b) == EncodeBlock(a) + EncodeBlock(b)
  {
    if a == [] {
      Empty(b);
      Empty(EncodeBlock(b));
    } else {
      calc {
        EncodeBlock(a + b);
        { HeadTail(a, b); }
        EncodeByte(a[0]) + EncodeBlock(a[1..] + b);
        { EncodeBlockAppend(a[1..], b); }
        EncodeByte(a[0]) + (EncodeBlock(a[1..]) + EncodeBlock(b));
        { Associative(EncodeByte(a[0]), EncodeBlock(a[1..]), EncodeBlock(b)); }
        EncodeBlock(a) + EncodeBlock(b);
      }
    }
  }

  /** The body of a frame and what follows it: its escaped octets, an END, the rest of the line. */
  function Body(data: seq<byte>, tail: seq<byte>): (r: seq<byte>) {
    EncodeBlock(data) + ([END] + tail)
  }

  lemma BodyStep(data: seq<byte>, tail: seq<byte>)
    ensures data == [] ==> Body(data, tail) == [END] + tail
    ensures data != [] ==> Body(data, tail) == EncodeByte(data[0]) + Body(data[1..], tail)
  {
    Empty([END] + tail);
    if data != [] { Associative(EncodeByte(data[0]), EncodeBlock(data[1..]), [END] + tail); }
  }

  lemma FrameShape(packet: seq<byte>, tail: seq<byte>)
    ensures EncodeFrame(packet) + tail == [END] + Body(packet, tail)
  {
    var block := EncodeBlock(packet);
    Associative([END], block, [END] + tail);
    Associative([END] + block, [END], tail);
  }

  /** Escaping is invertible: the body of a frame is recovered up to its END. */
  lemma {:induction false} ReceiveBody(data: seq<byte>, tail: seq<byte>, acc: seq<byte>)
    requires 1 <= |acc| + |data| <= MTU
    ensures Receive(Body(data, tail), true, acc) == Received(acc + data, tail)
    decreases |data|
  {
    BodyStep(data, tail);
    if data == [] {
      StepEnd(tail, true, acc);
      Empty(acc);
    } else {
      StepByte(data[0], Body(data[1..], tail), acc);
      ReceiveBody(data[1..], tail, acc + [data[0]]);
      Associative(acc, [data[0]], data[1..]);
      assert [data[0]] + data[1..] == data;
    }
  }

  lemma ReceiveFrame(packet: seq<byte>, tail: seq<byte>, started: bool)
    requires 1 <= |packet| <= MTU
    ensures Receive(EncodeFrame(packet) + tail, started, []) == Received(packet, tail)
  {
    FrameShape(packet, tail);
    StepEnd(Body(packet, tail), started, []);
    ReceiveBody(packet, tail, []);
    Empty(packet);
  }

  /** A decoder that has not seen an END ignores everything before the next one. */
  lemma {:induction false} SkipTo(junk: seq<byte>, rest: seq<byte>)
    requires END !in junk
    ensures Receive(junk + rest, false, []) == Receive(rest, false, [])
  {
    if junk == [] {
      Empty(rest);
    } else {
      assert [junk[0]] + junk[1..] == junk && junk[0] in junk;
      Associative([junk[0]], junk[1..], rest);
      StepSkip(junk[0], junk[1..] + rest);
      SkipTo(junk[1..], rest);
    }
  }

  // ---------- a stream of frames ----------

  /** Successive calls return exactly the datagrams sent. */
  lemma {:induction false} FramesRoundTrip(packets: seq<seq<byte>>, started: bool)
    requires Datagrams(packets) && packets != []
    ensures ReceiveAll(EncodeFrames(packets), started, []) == packets
    decreases |packets|
  {
    var later := packets[1..];
    assert packets == [packets[0]] + later;
    ReceiveFrame(packets[0], EncodeFrames(later), started);
    if later == [] {
      Empty([packets[0]]);
    } else {
      FramesRoundTrip(later, false);
      FrameShape(later[0], EncodeFrames(later[1..]));
    }
  }

  /** END-free junk, and then any number of ENDs, before the first frame is not noticed. */
  lemma {:induction false} StreamRoundTrip(junk: seq<byte>, ends: nat, packets: seq<seq<byte>>)
    requires END !in junk && Datagrams(packets) && packets != []
    ensures ReceiveAll(junk + (seq(ends, _ => END) + EncodeFrames(packets)), false, []) == packets
  {
    var first, later := packets[0], EncodeFrames(packets[1..]);
    SkipTo(junk, seq(ends, _ => END) + EncodeFrames(packets));
    SkipEnds(ends, EncodeFrames(packets), first, later, false);
    FramesRoundTrip(packets, false);
    ReceiveFrame(first, later, false);
  }

  lemma {:induction false} SkipEnds(ends: nat, frames: seq<byte>, packet: seq<byte>, tail: seq<byte>, started: bool)
    requires 1 <= |packet| <= MTU && frames == EncodeFrame(packet) + tail
    ensures Receive(seq(ends, _ => END) + frames, started, []) == Received(packet, tail)
    decreases ends
  {
    if ends == 0 {
      Empty(frames);
      assert seq(ends, _ => END) == [];
      ReceiveFrame(packet, tail, started);
    } else {
      var fewer := seq(ends - 1, _ => END);
      assert seq(ends, _ => END) == [END] + fewer;
      Associative([END], fewer, frames);
      StepEnd(fewer + frames, started, []);
      SkipEnds(ends - 1, frames, packet, tail, true);
    }
  }

  // ---------- recovery from line noise ----------

  /** One call returns; what the later calls end with, all calls end with. */
  lemma AfterReturn(line: seq<byte>, started: bool, acc: seq<byte>, suffix: seq<seq<byte>>)
    requires var rest := Receive(line, started, acc).rest;
      if rest == [] then suffix == [] else EndsWith(ReceiveAll(rest, false, []), suffix)
    ensures EndsWith(ReceiveAll(line, started, acc), suffix)
  {
    var r := Receive(line, started, acc);
    if r.rest != [] {
      EndsWithAfter([r.packet], ReceiveAll(r.rest, false, []), suffix);
    }
  }

  /** A decoder that is between two frames delivers all the frames that follow. */
  lemma FromBoundary(packets: seq<seq<byte>>, started: bool)
    requires Datagrams(packets)
    ensures EndsWith(ReceiveAll(EncodeFrames(packets), started, []), packets)
  {
    if packets != [] {
      FramesRoundTrip(packets, started);
    }
  }

  /** So does one that skips to the END of the frame whose body it was dropped into. */
  lemma SkipToFrames(skipped: seq<byte>, packets: seq<seq<byte>>)
    requires END !in skipped && Datagrams(packets)
    ensures EndsWith(ReceiveAll(skipped + ([END] + EncodeFrames(packets)), false, []), packets)
  {
    SkipTo(skipped, [END] + EncodeFrames(packets));
    StepEnd(EncodeFrames(packets), false, []);
    FromBoundary(packets, true);
  }

  /** Inside the body of some frame, in any state, the next END is a frame boundary. */
  lemma {:induction false} FromBody(data: seq<byte>, packets: seq<seq<byte>>, acc: seq<byte>)
    requires Datagrams(packets) && |acc| <= MTU
    ensures EndsWith(ReceiveAll(Body(data, EncodeFrames(packets)), true, acc), packets)
    decreases |data|
  {
    var tail := EncodeFrames(packets);
    BodyStep(data, tail);
    if data == [] {
      StepEnd(tail, true, acc);
      FromBoundary(packets, acc == []);
      if acc != [] { AfterReturn([END] + tail, true, acc, packets); }
    } else if |acc| < MTU {
      StepByte(data[0], Body(data[1..], tail), acc);
      FromBody(data[1..], packets, acc + [data[0]]);
    } else {
      OverflowInBody(EncodeBlock(data), packets, acc) by { NoEndInside(data); }
    }
  }

  lemma OverflowInBody(block: seq<byte>, packets: seq<seq<byte>>, acc: seq<byte>)
    requires Datagrams(packets) && |acc| == MTU && block != [] && END !in block
    ensures EndsWith(ReceiveAll(block + ([END] + EncodeFrames(packets)), true, acc), packets)
  {
    var rest := [END] + EncodeFrames(packets);
    assert [block[0]] + block[1..] == block && block[0] in block;
    Associative([block[0]], block[1..], rest);
    StepOverflow(block[0], block[1..] + rest, acc);
    SkipToFrames(block[1..], packets);
    AfterReturn(block + rest, true, acc, packets);
  }

  /** Whatever octets came before, at most the first of the frames that follow is lost. */
  lemma {:induction false} Resynchronises(noise: seq<byte>, packets: seq<seq<byte>>, started: bool, acc: seq<byte>)
    requires Datagrams(packets) && packets != [] && |acc| <= MTU && (!started ==> acc == [])
    ensures EndsWith(ReceiveAll(noise + EncodeFrames(packets), started, acc), packets[1..])
    decreases |noise|
  {
    var frames := EncodeFrames(packets);
    if noise == [] {
      Empty(frames);
      FromFirst(packets, started, acc);
    } else {
      HeadTail(noise, frames);
      Resynchronises(noise[1..], packets, noise[0] == END && !started, []);
      if started {
        ResynchroniseStep(noise, packets, acc);
      }
    }
  }

  lemma {:induction false} ResynchroniseStep(noise: seq<byte>, packets: seq<seq<byte>>, acc: seq<byte>)
    requires Datagrams(packets) && packets != [] && |acc| <= MTU && noise != []
    requires EndsWith(ReceiveAll(noise[1..] + EncodeFrames(packets), false, []), packets[1..])
    ensures EndsWith(ReceiveAll(noise + EncodeFrames(packets), true, acc), packets[1..])
    decreases |noise|, 0
  {
    var frames := EncodeFrames(packets);
    var line := noise + frames;
    HeadTail(noise, frames);
    if noise[0] == END && acc == [] {
      Resynchronises(noise[1..], packets, true, acc);
    } else if noise[0] == END || |acc| == MTU {
      AfterReturn(line, true, acc, packets[1..]) by { FrameShape(packets[0], EncodeFrames(packets[1..])); }
    } else if noise[0] != ESC {
      Resynchronises(noise[1..], packets, true, acc + [noise[0]]);
    } else if |noise| == 1 {
      EscapedEnd(packets, acc);
      assert line == [ESC] + frames;
    } else {
      HeadTail(noise[1..], frames);
      assert line[1] == noise[1] && line[2..] == noise[2..] + frames;
      Resynchronises(noise[2..], packets, true, acc + Unescape(noise[1]));
    }
  }

  /** A dangling escape swallows the opening END of the first frame. */
  lemma EscapedEnd(packets: seq<seq<byte>>, acc: seq<byte>)
    requires Datagrams(packets) && packets != [] && |acc| < MTU
    ensures EndsWith(ReceiveAll([ESC] + EncodeFrames(packets), true, acc), packets[1..])
  {
    var body := Body(packets[0], EncodeFrames(packets[1..]));
    FrameShape(packets[0], EncodeFrames(packets[1..]));
    StepEscapedEnd(body, acc);
    FromBody(packets[0], packets[1..], acc);
  }

  lemma StepEscapedEnd(rest: seq<byte>, acc: seq<byte>)
    requires |acc| < MTU
    ensures Receive([ESC] + ([END] + rest), true, acc) == Receive(rest, true, acc)
  {
    Associative([ESC], [END], rest);
    DropPrefix([ESC] + [END], rest);
    Empty(acc);
  }

  lemma FromFirst(packets: seq<seq<byte>>, started: bool, acc: seq<byte>)
    requires Datagrams(packets) && packets != [] && |acc| <= MTU && (!started ==> acc == [])
    ensures EndsWith(ReceiveAll(EncodeFrames(packets), started, acc), packets[1..])
  {
    var tail := EncodeFrames(packets[1..]);
    FrameShape(packets[0], tail);
    StepEnd(Body(packets[0], tail), started, acc);
    if started && acc != [] {
      NoEndInside(packets[0]);
      SkipToFrames(EncodeBlock(packets[0]), packets[1..]);
      AfterReturn(EncodeFrames(packets), started, acc, packets[1..]);
    } else {
      FromBody(packets[0], packets[1..], []);
    }
  }
}
