/**
 Packets of gdb's remote protocol, as described in section E.1, "Overview", of the GDB manual:
 escaping, framing, and finding packets in what arrives.
 */
module GdbPacket {
  import opened Common
  import opened RingArithmetic

  const DOLLAR: byte := 0x24
  const HASH: byte := 0x23
  const BRACE: byte := 0x7d
  const STAR: byte := 0x2a
  const INTERRUPT: byte := 0x03

  /** Exclusive or with 0x20. */
  function Flip(b: byte): byte { if b / 32 % 2 == 1 then b - 32 else b + 32 }

  predicate Special(b: byte) { b == HASH || b == DOLLAR || b == BRACE || b == STAR }

  function EscapeByte(b: byte): seq<byte> { if Special(b) then [BRACE, Flip(b)] else [b] }

  function Escape(data: seq<byte>): (r: seq<byte>)
    ensures |data| <= |r| <= 2 * |data|
  {
    if data == [] then [] else Escape(data[..|data| - 1]) + EscapeByte(data[|data| - 1])
  }

  /** No result when the data ends after an escape character. */
  function Unescape(body: seq<byte>): Option<seq<byte>> {
    if body == [] then Some([])
    else if body[0] != BRACE then Prepend(body[0], Unescape(body[1..]))
    else if |body| == 1 then None
    else Prepend(Flip(body[1]), Unescape(body[2..]))
  }

  function Prepend(b: byte, rest: Option<seq<byte>>): Option<seq<byte>> {
    if rest.None? then None else Some([b] + rest.value)
  }

  /** Every bit of the byte but 0x20 is the same. */
  lemma FlipMeans(b: byte)
    ensures var f := Flip(b);
      && f / 32 % 2 != b / 32 % 2 && f / 64 == b / 64 && f % 32 == b % 32
  {
    DivModUnique(b, 64, b / 64, b % 64);
  }

  /** The four special bytes become a brace and the byte with bit 0x20 changed; all others stay. */
  lemma EscapeByteMeans(b: byte)
    ensures EscapeByte(b) ==
      if b == 0x23 then [0x7d, 0x03] else if b == 0x24 then [0x7d, 0x04]
      else if b == 0x7d then [0x7d, 0x5d] else if b == 0x2a then [0x7d, 0x0a] else [b]
  {
  }

  lemma EscapeFirst(data: seq<byte>)
    requires data != []
    ensures Escape(data) == EscapeByte(data[0]) + Escape(data[1..])
    decreases |data|
  {
    hide EscapeByte;
    if |data| > 1 {
      EscapeFirst(data[..|data| - 1]);
      assert data[..|data| - 1][1..] == data[1..][..|data| - 2];
    }
  }

  /** Unescaping gives the data back. */
  lemma {:induction false} UnescapeEscape(data: seq<byte>)
    ensures Unescape(Escape(data)) == Some(data)
    decreases |data|
  {
    if data != [] {
      hide EscapeByte;
      EscapeFirst(data);
      UnescapeEscape(data[1..]);
      UnescapeFirst(data[0], Escape(data[1..]));
      assert [data[0]] + data[1..] == data;
    }
  }

  lemma UnescapeFirst(b: byte, tail: seq<byte>)
    ensures Unescape(EscapeByte(b) + tail) == Prepend(b, Unescape(tail))
  {
    hide Prepend;
    var body := EscapeByte(b) + tail;
    if Special(b) {
      assert body[2..] == tail && Flip(body[1]) == b;
    } else {
      assert body[1..] == tail;
    }
  }

  /** An escaped body has none of the characters that structure a packet. */
  lemma {:induction false} EscapedIsClean(data: seq<byte>)
    ensures HASH !in Escape(data) && DOLLAR !in Escape(data) && STAR !in Escape(data)
  {
    if data != [] { EscapedIsClean(data[..|data| - 1]); }
  }

  // ---------------------------------------------------------------- framing

  function Sum(data: seq<byte>): nat {
    if data == [] then 0 else Sum(data[..|data| - 1]) + data[|data| - 1]
  }

  lemma SumStart(data: seq<byte>)
    ensures Sum(data[..0]) == 0
  {
  }

  lemma SumNext(data: seq<byte>, i: nat)
    requires i < |data|
    ensures Sum(data[..i + 1]) % 256 == (Sum(data[..i]) % 256 + data[i]) % 256
  {
    assert data[..i + 1][..i] == data[..i];
  }

  /** A hexadecimal digit, in lower case. */
  function Digit(n: nat): (r: byte)
    requires n < 16
    ensures r != DOLLAR && r != INTERRUPT && r != HASH
  {
    if n < 10 then 0x30 + n else 0x61 + n - 10
  }

  function Hex(b: byte): (r: seq<byte>)
    ensures |r| == 2
  {
    [Digit(b / 16), Digit(b % 16)]
  }

  lemma HexClean(b: byte)
    ensures forall i :: 0 <= i < |Hex(b)| ==> Hex(b)[i] !in STARTS
  {
  }

  /** The value of a digit as gdb reads it. */
  function DigitValue(c: byte): int
    requires 0x30 <= c <= 0x39 || 0x61 <= c <= 0x66
  {
    if c <= 0x39 then c - 0x30 else c as int - 0x61 + 10
  }

  /** Two hexadecimal digits, the higher one first, whose value is the byte. */
  lemma HexMeans(b: byte)
    ensures var h := Hex(b);
      && (forall i :: 0 <= i < 2 ==> 0x30 <= h[i] <= 0x39 || 0x61 <= h[i] <= 0x66)
      && 16 * DigitValue(h[0]) + DigitValue(h[1]) == b
  {
  }

  /** A packet on the wire. */
  function Wire(body: seq<byte>): seq<byte> { [DOLLAR] + body + [HASH] + Hex(Sum(body) % 256) }

  function Stream(bodies: seq<seq<byte>>): seq<byte> {
    if bodies == [] then [] else Wire(bodies[0]) + Stream(bodies[1..])
  }

  /** The first of the bytes in `stop`, at or after `from`. */
  function Find(s: seq<byte>, from: nat, stop: set<byte>): (r: nat)
    requires from <= |s|
    ensures from <= r <= |s| && (r < |s| ==> s[r] in stop)
    ensures forall i :: from <= i < r ==> s[i] !in stop
    decreases |s| - from
  {
    if from == |s| || s[from] in stop then from else Find(s, from + 1, stop)
  }

  lemma FindIs(s: seq<byte>, from: nat, stop: set<byte>, k: nat)
    requires from <= k < |s| && s[k] in stop && forall i :: from <= i < k ==> s[i] !in stop
    ensures Find(s, from, stop) == k
  {
  }

  const STARTS: set<byte> := {DOLLAR, INTERRUPT}
  const ENDS: set<byte> := {HASH}

  datatype Packet = Packet(body: seq<byte>) | Interrupt

  datatype Taken = Taken(packet: Packet, rest: seq<byte>)

  /** The first complete packet in what arrives, and what follows its end mark. */
  function Next(s: seq<byte>): Option<Taken> {
    var start := Find(s, 0, STARTS);
    if start == |s| then None
    else if s[start] == INTERRUPT then Some(Taken(Interrupt, s[start + 1..]))
    else
      var end := Find(s, start, ENDS);
      if end == |s| then None else Some(Taken(Packet(s[start + 1..end]), s[end + 1..]))
  }

  /** What arrives, split at its first complete packet. */
  ghost predicate SplitsAt(s: seq<byte>, junk: seq<byte>, p: Packet, rest: seq<byte>) {
    && 0x24 !in junk && 0x03 !in junk
    && (if p.Interrupt? then s == junk + [0x03] + rest
        else 0x23 !in p.body && s == junk + [0x24] + p.body + [0x23] + rest)
  }

  /** A packet is found exactly where what arrives can be split like this, and in one way only. */
  lemma NextMeans(s: seq<byte>, junk: seq<byte>, p: Packet, rest: seq<byte>)
    ensures SplitsAt(s, junk, p, rest) ==> Next(s) == Some(Taken(p, rest))
    ensures Next(s).Some? ==> SplitsAt(s, s[..Find(s, 0, STARTS)], Next(s).value.packet, Next(s).value.rest)
  {
    if SplitsAt(s, junk, p, rest) { SplitIsNext(s, junk, p, rest); }
    if Next(s).Some? { NextSplits(s); }
  }

  lemma SplitIsNext(s: seq<byte>, junk: seq<byte>, p: Packet, rest: seq<byte>)
    requires SplitsAt(s, junk, p, rest)
    ensures Next(s) == Some(Taken(p, rest))
  {
    var k := |junk|;
    assert forall i :: 0 <= i < k ==> s[i] == junk[i];
    FindIs(s, 0, STARTS, k);
    if p.Interrupt? {
      assert s[k + 1..] == rest;
    } else {
      var end := k + 1 + |p.body|;
      assert forall i :: k < i < end ==> s[i] == p.body[i - k - 1];
      FindIs(s, k, ENDS, end);
      assert s[k + 1..end] == p.body && s[end + 1..] == rest;
    }
  }

  lemma NextSplits(s: seq<byte>)
    requires Next(s).Some?
    ensures SplitsAt(s, s[..Find(s, 0, STARTS)], Next(s).value.packet, Next(s).value.rest)
  {
    hide Find;
    var k := Find(s, 0, STARTS);
    var junk := s[..k];
    assert forall x :: x in junk ==> x !in STARTS;
    assert s == junk + s[k..];
    if s[k] == INTERRUPT {
      assert s == junk + [s[k]] + s[k + 1..];
    } else {
      var end := Find(s, k, ENDS);
      assert s == junk + [s[k]] + s[k + 1..end] + [s[end]] + s[end + 1..];
    }
  }

  lemma NextIsShorter(s: seq<byte>)
    requires Next(s).Some?
    ensures |Next(s).value.rest| < |s|
  {
  }

  /** All complete packets in what arrives. */
  function Packets(s: seq<byte>): seq<Packet>
    decreases |s|
  {
    if Next(s).None? then [] else
    NextIsShorter(s);
    [Next(s).value.packet] + Packets(Next(s).value.rest)
  }

  lemma PacketsStep(s: seq<byte>)
    requires Next(s).Some?
    ensures Packets(s) == [Next(s).value.packet] + Packets(Next(s).value.rest)
  {
    hide Next;
  }

  /** What stands between two packets is skipped, and a packet ends at its own end mark. */
  lemma NextOfWire(junk: seq<byte>, body: seq<byte>, rest: seq<byte>)
    requires HASH !in body && forall i :: 0 <= i < |junk| ==> junk[i] !in STARTS
    ensures var n := Next(junk + Wire(body) + rest);
      n.Some? && n.value.packet == Packet(body) && n.value.rest == Hex(Sum(body) % 256) + rest
  {
    var s := junk + Wire(body) + rest;
    hide Hex, Sum;
    var hex := Hex(Sum(body) % 256);
    var end := |junk| + 1 + |body|;
    assert s == junk + [DOLLAR] + body + [HASH] + hex + rest;
    FindIs(s, 0, STARTS, |junk|);
    assert forall i :: |junk| < i < end ==> s[i] == body[i - |junk| - 1];
    FindIs(s, |junk|, ENDS, end);
    assert s[|junk| + 1..end] == body && s[end + 1..] == hex + rest;
  }

  ghost predicate Clean(bodies: seq<seq<byte>>) {
    forall k :: 0 <= k < |bodies| ==> HASH !in bodies[k]
  }

  function AsPackets(bodies: seq<seq<byte>>): (r: seq<Packet>)
    ensures |r| == |bodies| && forall k :: 0 <= k < |bodies| ==> r[k] == Packet(bodies[k])
  {
    seq(|bodies|, k requires 0 <= k < |bodies| => Packet(bodies[k]))
  }

  /** Reading a stream of packets gives the packets back. */
  lemma {:induction false} PacketsOfStream(junk: seq<byte>, bodies: seq<seq<byte>>)
    requires Clean(bodies) && forall i :: 0 <= i < |junk| ==> junk[i] !in STARTS
    ensures Packets(junk + Stream(bodies)) == AsPackets(bodies)
    decreases |bodies|
  {
    var s := junk + Stream(bodies);
    if bodies == [] {
      assert s == junk;
    } else {
      hide Wire, Next, Hex, Sum, Packets, AsPackets;
      var body, tail := bodies[0], bodies[1..];
      var hex := Hex(Sum(body) % 256);
      HexClean(Sum(body) % 256);
      assert s == junk + Wire(body) + Stream(tail);
      NextOfWire(junk, body, Stream(tail));
      PacketsStep(s);
      assert Clean(tail);
      PacketsOfStream(hex, tail);
      assert Packets(s) == [Packet(body)] + AsPackets(tail);
      AsPacketsFirst(bodies);
    }
  }

  lemma AsPacketsFirst(bodies: seq<seq<byte>>)
    requires bodies != []
    ensures AsPackets(bodies) == [Packet(bodies[0])] + AsPackets(bodies[1..])
  {
  }

  // ---------------------------------------------------------------- the connection

  /** What one read from the socket returns. */
  type Chunk = c: seq<byte> | |c| > 0 witness [0]

  function Flat(cs: seq<Chunk>): seq<byte> {
    if cs == [] then [] else cs[0] + Flat(cs[1..])
  }

  class GdbConnection {
    var inbuf: seq<byte>
    var packetend: nat
    var outbuf: seq<byte>
    var alive: bool
    var incoming: seq<Chunk>   // what the socket will return, read by read, until it is closed

    constructor (incoming: seq<Chunk>)
      ensures alive && inbuf == [] && outbuf == [] && this.incoming == incoming
    {
      this.incoming := incoming;
      inbuf, packetend, outbuf, alive := [], 0, [], true;
    }

    /** What has arrived and not been used, and what will arrive. */
    ghost function Rest(): seq<byte>
      reads this
    {
      inbuf + Flat(incoming)
    }

    // ---------------------------------------------------------------- writing

    method WritePacketBytes(data: seq<byte>)
      modifies this`outbuf
      ensures outbuf == old(outbuf) + Wire(data)
    {
      hide Sum, Hex;
      ghost var before := outbuf;
      outbuf := outbuf + [DOLLAR];
      var checksum: nat, i := 0, 0;
      SumStart(data);
      while i < |data|
        invariant 0 <= i <= |data|
        invariant checksum == Sum(data[..i]) % 256 && outbuf == before + [DOLLAR]
      {
        SumNext(data, i);
        checksum := (checksum + data[i]) % 256;
        i := i + 1;
      }
      assert data[..i] == data;
      outbuf := outbuf + data;
      outbuf := outbuf + [HASH];
      outbuf := outbuf + Hex(checksum);
      assert outbuf == before + ([DOLLAR] + data + [HASH] + Hex(checksum));
    }

    /** The buffer is big enough for every byte to be escaped. */
    method WriteBinaryPacket(pfx: seq<byte>, data: seq<byte>)
      modifies this`outbuf
      ensures outbuf == old(outbuf) + Wire(pfx + Escape(data))
    {
      hide Wire, EscapeByte;
      var buf := new byte[2 * |data| + |pfx|](_ => 0);
      CopyInto(buf, pfx);
      var count, i := |pfx|, 0;
      while i < |data|
        invariant 0 <= i <= |data|
        invariant count == |pfx| + |Escape(data[..i])| && count <= buf.Length
        invariant buf[..count] == pfx + Escape(data[..i])
        invariant outbuf == old(outbuf)
      {
        if count + 2 > buf.Length {
          assert false;
          break;
        }
        assert data[..i + 1][..i] == data[..i];
        count := PutEscaped(buf, count, data[i]);
        i := i + 1;
      }
      assert data[..i] == data;
      WritePacketBytes(buf[..count]);
    }

    // ---------------------------------------------------------------- reading

    method ReadDataOnce()
      requires alive
      modifies this`inbuf, this`alive, this`incoming
      ensures Rest() == old(Rest())
      ensures old(incoming) == [] ==> !alive && inbuf == old(inbuf) && incoming == []
      ensures old(incoming) != [] ==> alive && incoming == old(incoming)[1..] && inbuf == old(inbuf) + old(incoming)[0]
    {
      if incoming == [] {
        alive := false;
      } else {
        inbuf := inbuf + incoming[0];
        incoming := incoming[1..];
      }
    }

    /** Drop what precedes the start of a packet, or everything. */
    method SkipToPacketStart() returns (found: bool, ghost dropped: nat)
      modifies this`inbuf
      ensures dropped <= |old(inbuf)| && inbuf == old(inbuf)[dropped..]
      ensures forall i :: 0 <= i < dropped ==> old(inbuf)[i] !in STARTS
      ensures if found then inbuf != [] && inbuf[0] in STARTS else inbuf == []
    {
      var i := 0;
      while i < |inbuf|
        invariant 0 <= i <= |inbuf|
        invariant forall j :: 0 <= j < i ==> inbuf[j] !in STARTS
      {
        if inbuf[i] == DOLLAR || inbuf[i] == INTERRUPT {
          inbuf := inbuf[i..];
          return true, i;
        }
        i := i + 1;
      }
      inbuf := [];
      return false, i;
    }

    /** Look for a start in what is left of `s` after `n` bytes. */
    method Look(ghost s: seq<byte>, ghost n: nat) returns (found: bool, ghost n': nat)
      requires Gone(s, n) && Rest() == s[n..]
      modifies this`inbuf
      ensures Gone(s, n') && Rest() == s[n'..] && (found ==> old(inbuf) != [])
      ensures if found then inbuf != [] && inbuf[0] in STARTS else inbuf == []
    {
      ghost var buf, more := inbuf, Flat(incoming);
      ghost var dropped;
      found, dropped := SkipToPacketStart();
      n' := n + dropped;
      Window(s, n, buf, more, 0, dropped);
      forall i | 0 <= i < dropped ensures s[n..][i] !in STARTS { assert s[n..][i] == buf[i]; }
      GoneMore(s, n, dropped);
    }

    /** Read until a packet starts, or until the connection is closed. */
    method AwaitStart() returns (found: bool)
      requires alive
      modifies this`inbuf, this`alive, this`incoming
      ensures var s := old(Rest());
        var k := Find(s, 0, STARTS);
        && (found <==> k < |s|) && (found <==> alive)
        && (found ==> inbuf != [] && inbuf[0] in STARTS && Rest() == s[k..])
    {
      hide Find, Flat;
      ghost var s, n: nat := Rest(), 0;
      GoneNone(s);
      found, n := Look(s, n);
      while !found && alive
        invariant Gone(s, n) && Rest() == s[n..]
        invariant found ==> alive && inbuf != [] && inbuf[0] in STARTS
        invariant !found ==> inbuf == [] && (!alive ==> incoming == [])
        decreases |incoming|, alive
      {
        ReadDataOnce();
        found, n := Look(s, n);
      }
      if found {
        assert s[n] == s[n..][0];
        FindIs(s, 0, STARTS, n);
      } else {
        FlatEmpty();
        FindNone(s, n);
      }
    }

    /** Read until the packet's end mark has arrived, or until the connection is closed. */
    method AwaitEnd()
      requires alive && inbuf != [] && inbuf[0] in STARTS
      modifies this`inbuf, this`alive, this`incoming, this`packetend
      ensures Rest() == old(Rest()) && old(inbuf) <= inbuf
      ensures alive <==> Find(Rest(), 0, ENDS) < |Rest()|
      ensures alive ==> packetend == Find(Rest(), 0, ENDS) && packetend < |inbuf|
    {
      hide Flat;
      var checked: nat := 0;
      while true
        invariant alive && Rest() == old(Rest()) && old(inbuf) <= inbuf && checked <= |inbuf|
        invariant forall i :: 0 <= i < checked ==> inbuf[i] !in ENDS
        decreases |incoming|
      {
        var p := Find(inbuf, checked, ENDS);
        if p < |inbuf| {
          packetend := p;
          FindIs(Rest(), 0, ENDS, p);
          break;
        }
        checked := |inbuf|;
        ReadDataOnce();
        if !alive {
          assert Flat([]) == [] && Rest() == inbuf by { FlatEmpty(); }
          return;
        }
      }
    }

    /** Find the next packet; the connection is no longer alive if there is none. */
    method ReadPacket()
      requires alive
      modifies this`inbuf, this`alive, this`incoming, this`packetend
      ensures alive <==> Next(old(Rest())).Some?
      ensures alive ==> Ready(old(Rest()))
    {
      ghost var s := Rest();
      ghost var k := Find(s, 0, STARTS);
      var found := AwaitStart();
      if !found {
        return;
      }
      if inbuf[0] == INTERRUPT {
        packetend := 1;
        return;
      }
      AwaitEnd();
      FindSuffix(s, k, ENDS);
    }

    /** The input begins with the next packet of `s`, whose end is known. */
    ghost predicate Ready(s: seq<byte>)
      reads this
    {
      var k := Find(s, 0, STARTS);
      && k < |s| && inbuf != [] && Rest() == s[k..]
      && if inbuf[0] == INTERRUPT then packetend == 1
         else inbuf[0] == DOLLAR && packetend < |inbuf| && k + packetend == Find(s, k, ENDS)
    }

    /** Read one packet and take it out of the input. */
    method TakePacket() returns (p: Option<Packet>)
      requires alive
      modifies this`inbuf, this`alive, this`incoming, this`packetend
      ensures p.Some? == alive == Next(old(Rest())).Some?
      ensures p.Some? ==> Next(old(Rest())).value.packet == p.value && Next(old(Rest())).value.rest == Rest()
    {
      hide Find, Next, Flat;
      ghost var s := Rest();
      ReadPacket();
      if !alive {
        return None;
      }
      if inbuf[0] == INTERRUPT {
        TakenInterrupt(s, inbuf, Flat(incoming));
        p := Some(Interrupt);
        inbuf := inbuf[1..];
      } else {
        TakenBody(s, inbuf, Flat(incoming), packetend);
        p := Some(Packet(inbuf[1..packetend]));
        inbuf := inbuf[packetend + 1..];
      }
    }

    /** Everything that arrives, however it is cut into reads. */
    method TakeAll() returns (ps: seq<Packet>)
      requires alive
      modifies this`inbuf, this`alive, this`incoming, this`packetend
      ensures ps == Packets(old(Rest()))
    {
      hide Next;
      ps := [];
      ghost var s := Rest();
      while true
        invariant alive && Packets(s) == ps + Packets(Rest())
        decreases |Rest()|
      {
        ghost var before := Rest();
        var p := TakePacket();
        if p.None? {
          return;
        }
        NextIsShorter(before);
        PacketsStep(before);
        assert ps + ([p.value] + Packets(Rest())) == ps + [p.value] + Packets(Rest());
        ps := ps + [p.value];
      }
    }

    /** Write one binary packet for every message. */
    method WriteAll(ms: seq<Message>)
      modifies this`outbuf
      ensures outbuf == old(outbuf) + Stream(Bodies(ms))
    {
      hide Wire, Stream, Bodies, Escape;
      StreamStart(ms);
      var i := 0;
      while i < |ms|
        invariant 0 <= i <= |ms|
        invariant outbuf == old(outbuf) + Stream(Bodies(ms[..i]))
      {
        WriteBinaryPacket(ms[i].pfx, ms[i].data);
        BodiesNext(ms, i);
        StreamAppend(Bodies(ms[..i]), ms[i].pfx + Escape(ms[i].data));
        i := i + 1;
      }
      assert ms[..i] == ms;
    }
  }

  /** Looking through a window that starts at `k`. */
  lemma Window(s: seq<byte>, k: nat, buf: seq<byte>, more: seq<byte>, i: nat, j: nat)
    requires k <= |s| && buf + more == s[k..] && i <= j <= |buf|
    ensures k + j <= |s| && s[k + i..k + j] == buf[i..j] && s[k + j..] == buf[j..] + more
    ensures i < |buf| ==> k + i < |s| && s[k + i] == buf[i]
  {
    assert s[k + j..] == s[k..][j..] == (buf + more)[j..];
    assert s[k + i..k + j] == s[k..][i..j] == (buf + more)[i..j];
    if i < |buf| { assert s[k + i] == s[k..][i]; }
  }

  lemma TakenInterrupt(s: seq<byte>, buf: seq<byte>, more: seq<byte>)
    requires var k := Find(s, 0, STARTS); k < |s| && buf + more == s[k..]
    requires buf != [] && buf[0] == INTERRUPT
    ensures Next(s).Some? && Next(s).value.packet == Interrupt && Next(s).value.rest == buf[1..] + more
  {
    hide Find;
    Window(s, Find(s, 0, STARTS), buf, more, 0, 1);
  }

  lemma TakenBody(s: seq<byte>, buf: seq<byte>, more: seq<byte>, end: nat)
    requires var k := Find(s, 0, STARTS); k < |s| && buf + more == s[k..] && k + end == Find(s, k, ENDS)
    requires 0 < |buf| && buf[0] == DOLLAR && end < |buf|
    ensures end > 0 && Next(s).Some? && Next(s).value.packet.Packet?
    ensures Next(s).value.packet.body == buf[1..end]
    ensures Next(s).value.rest == buf[end + 1..] + more
  {
    hide Find, Next;
    var k := Find(s, 0, STARTS);
    assert s[k] == s[k..][0];
    assert |s[k..]| == |buf| + |more|;
    NextBody(s, k, k + end);
    BodyWindow(s, k, buf, more, end, k + end);
  }

  lemma BodyWindow(s: seq<byte>, k: nat, buf: seq<byte>, more: seq<byte>, end: nat, e: nat)
    requires k <= |s| && buf + more == s[k..] && 0 < end < |buf| && e == k + end < |s|
    ensures s[k + 1..e] == buf[1..end] && s[e + 1..] == buf[end + 1..] + more
  {
    Window(s, k, buf, more, 1, end);
    Window(s, k, buf, more, end + 1, end + 1);
  }

  lemma NextBody(s: seq<byte>, k: nat, end: nat)
    requires k == Find(s, 0, STARTS) < |s| && s[k] == DOLLAR && end == Find(s, k, ENDS) < |s|
    ensures end > k && Next(s).Some? && Next(s).value.packet.Packet?
    ensures Next(s).value.packet.body == s[k + 1..end] && Next(s).value.rest == s[end + 1..]
  {
    hide Find;
  }

  lemma FlatEmpty()
    ensures Flat([]) == []
  {
  }

  /** Searching from the start of a suffix. */
  lemma FindSuffix(s: seq<byte>, k: nat, stop: set<byte>)
    requires k <= |s|
    ensures Find(s, k, stop) == k + Find(s[k..], 0, stop)
  {
    hide Find;
    var n := Find(s[k..], 0, stop);
    assert forall i :: k <= i < |s| ==> s[i] == s[k..][i - k];
    if n < |s| - k {
      FindIs(s, k, stop, k + n);
    }
  }

  // ---------------------------------------------------------------- messages

  datatype Message = Message(pfx: seq<byte>, data: seq<byte>)

  function Bodies(ms: seq<Message>): (r: seq<seq<byte>>)
    ensures |r| == |ms| && forall k :: 0 <= k < |ms| ==> r[k] == ms[k].pfx + Escape(ms[k].data)
  {
    seq(|ms|, k requires 0 <= k < |ms| => ms[k].pfx + Escape(ms[k].data))
  }

  lemma {:induction false} StreamAppend(bodies: seq<seq<byte>>, body: seq<byte>)
    ensures Stream(bodies + [body]) == Stream(bodies) + Wire(body)
    decreases |bodies|
  {
    hide Wire;
    var all := bodies + [body];
    if bodies == [] {
      assert all[1..] == [] && Stream([]) == [];
    } else {
      StreamAppend(bodies[1..], body);
      assert all[1..] == bodies[1..] + [body];
    }
  }

  lemma StreamStart(ms: seq<Message>)
    ensures Stream(Bodies(ms[..0])) == []
  {
  }

  lemma BodiesNext(ms: seq<Message>, i: nat)
    requires i < |ms|
    ensures Bodies(ms[..i + 1]) == Bodies(ms[..i]) + [ms[i].pfx + Escape(ms[i].data)]
  {
    hide Escape;
  }

  lemma BodiesClean(ms: seq<Message>)
    requires forall k :: 0 <= k < |ms| ==> HASH !in ms[k].pfx
    ensures Clean(Bodies(ms))
  {
    forall k | 0 <= k < |ms| ensures HASH !in Bodies(ms)[k] { EscapedIsClean(ms[k].data); }
  }

  /** What `WriteAll` put on the wire, cut into any reads, is received message by message. */
  method Receive(incoming: seq<Chunk>, ghost ms: seq<Message>) returns (ps: seq<Packet>)
    requires Flat(incoming) == Stream(Bodies(ms))
    requires forall k :: 0 <= k < |ms| ==> HASH !in ms[k].pfx
    ensures |ps| == |ms|
    ensures forall k :: 0 <= k < |ms| ==> Carries(ps[k], ms[k])
  {
    hide Carries;
    var c := new GdbConnection(incoming);
    assert c.Rest() == Stream(Bodies(ms)) == [] + Stream(Bodies(ms));
    ps := c.TakeAll();
    BodiesClean(ms);
    PacketsOfStream([], Bodies(ms));
    forall k | 0 <= k < |ms| ensures Carries(ps[k], ms[k]) { PacketCarries(ms[k]); }
  }

  /** A packet with the message's prefix, and its data once unescaped. */
  ghost predicate Carries(p: Packet, m: Message) {
    && p.Packet? && m.pfx <= p.body && DOLLAR !in p.body[|m.pfx|..]
    && Unescape(p.body[|m.pfx|..]) == Some(m.data)
  }

  lemma PacketCarries(m: Message)
    ensures Carries(Packet(m.pfx + Escape(m.data)), m)
  {
    var body := m.pfx + Escape(m.data);
    assert body[|m.pfx|..] == Escape(m.data);
    EscapedIsClean(m.data);
    UnescapeEscape(m.data);
  }

  /** The first `n` bytes hold no start of a packet. */
  ghost predicate Gone(s: seq<byte>, n: nat) {
    n <= |s| && forall i :: 0 <= i < n ==> s[i] !in STARTS
  }

  lemma GoneNone(s: seq<byte>)
    ensures Gone(s, 0)
  {
  }

  lemma GoneMore(s: seq<byte>, n: nat, more: nat)
    requires Gone(s, n) && n + more <= |s| && forall i :: 0 <= i < more ==> s[n..][i] !in STARTS
    ensures Gone(s, n + more)
  {
    forall i | 0 <= i < n + more ensures s[i] !in STARTS {
      if i >= n { assert s[i] == s[n..][i - n]; }
    }
  }

  lemma FindNone(s: seq<byte>, n: nat)
    requires Gone(s, n) && n == |s|
    ensures Find(s, 0, STARTS) == |s|
  {
  }

  method PutEscaped(buf: array<byte>, at: nat, b: byte) returns (count: nat)
    requires at + 2 <= buf.Length
    modifies buf
    ensures count == at + |EscapeByte(b)| <= buf.Length
    ensures buf[..count] == old(buf[..at]) + EscapeByte(b)
  {
    count := at;
    if Special(b) {
      buf[count] := BRACE;
      count := count + 1;
      buf[count] := Flip(b);
      count := count + 1;
    } else {
      buf[count] := b;
      count := count + 1;
    }
  }

  /** The data in an escaped body; no result where the parser would give up. */
  method ReadBinaryData(body: seq<byte>) returns (data: Option<seq<byte>>)
    ensures data == Unescape(body)
  {
    data := Some([]);
    var at := 0;
    assert body[0..] == body;
    assert Unescape(body).Some? ==> [] + Unescape(body).value == Unescape(body).value;
    while at < |body|
      invariant 0 <= at <= |body| && data.Some?
      invariant Unescape(body) == Join(data.value, Unescape(body[at..]))
      decreases |body| - at
    {
      var b := body[at];
      at := at + 1;
      if b == BRACE {
        if at >= |body| {
          return None;
        }
        b := Flip(body[at]);
        at := at + 1;
      }
      JoinPrepend(data.value, b, Unescape(body[at..]));
      data := Some(data.value + [b]);
    }
    assert data.value + [] == data.value;
  }

  function Join(a: seq<byte>, b: Option<seq<byte>>): Option<seq<byte>> {
    if b.None? then None else Some(a + b.value)
  }

  lemma JoinPrepend(a: seq<byte>, b: byte, rest: Option<seq<byte>>)
    ensures Join(a, Prepend(b, rest)) == Join(a + [b], rest)
  {
    if rest.Some? { assert a + ([b] + rest.value) == a + [b] + rest.value; }
  }

  method CopyInto(buf: array<byte>, pfx: seq<byte>)
    requires |pfx| <= buf.Length
    modifies buf
    ensures buf[..|pfx|] == pfx
  {
    var i := 0;
    while i < |pfx|
      invariant 0 <= i <= |pfx|
      invariant buf[..i] == pfx[..i]
    {
      buf[i] := pfx[i];
      i := i + 1;
    }
  }
}
