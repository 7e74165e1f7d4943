/** Reading data blocks from an SD card over SPI: scan what already arrived for the start token, else poll for it. */
module SdspiRead {
  import opened Basics
  import opened Bytes

  const TOKEN: byte := 0xFE
  const MAX_DATA: nat := 512
  /** Command, one idle octet and R1 fill 8 octets; 8 more are received along. */
  const CMD_R1: nat := 8
  const EXTRA: nat := 8

  datatype Result = Ok | Timeout | InvalidResponse | InvalidCrc | Overrun

  /** What n octets of clock bring: the octets the card has to send, and then the idle line. */
  function Clocked(s: seq<byte>, n: nat): (r: seq<byte>)
    ensures |r| == n
  {
    s[..Min(n, |s|)] + seq(n - Min(n, |s|), _ => 0xFF)
  }

  /** What the card has still to send after n octets of clock. */
  function Later(s: seq<byte>, n: nat): (r: seq<byte>) { s[Min(n, |s|)..] }

  /** The octets the card is going to send; idle high once they are over. */
  class Bus {
    var rest: seq<byte>

    constructor (rest: seq<byte>)
      ensures this.rest == rest
    {
      this.rest := rest;
    }

    method Transfer(n: nat) returns (r: seq<byte>)
      modifies this
      ensures |r| == n
      ensures n <= |old(rest)| ==> r + rest == old(rest)
      ensures r == Clocked(old(rest), n) && rest == Later(old(rest), n)
    {
      r := Clocked(rest, n);
      rest := rest[Min(n, |rest|)..];
    }
  }

  predicate Idle(b: byte) { b == 0xFF || b == 0 }

  /** A block as the card sends it: idle octets, start token, payload, checksum. */
  datatype Block = Block(gap: seq<byte>, payload: seq<byte>, crc: seq<byte>)

  function Wire(b: Block): (s: seq<byte>) { b.gap + [TOKEN] + b.payload + b.crc }

  /** The blocks and then the trail that the card keeps sending. */
  function WireAll(blocks: seq<Block>, trail: seq<byte>): (s: seq<byte>) {
    if blocks == [] then trail else Wire(blocks[0]) + WireAll(blocks[1..], trail)
  }

  predicate IdleGap(gap: seq<byte>) { forall i :: 0 <= i < |gap| ==> Idle(gap[i]) }

  /** The blocks carry exactly n octets, cut at 512. */
  ghost predicate Carries(blocks: seq<Block>, n: nat)
    decreases |blocks|
  {
    if n == 0 then blocks == []
    else
      && blocks != [] && IdleGap(blocks[0].gap)
      && |blocks[0].payload| == Min(n, MAX_DATA) && |blocks[0].crc| == 2
      && Carries(blocks[1..], n - Min(n, MAX_DATA))
  }

  function Payloads(blocks: seq<Block>): (s: seq<byte>) {
    if blocks == [] then [] else blocks[0].payload + Payloads(blocks[1..])
  }

  /** Octets at an offset of the command buffer or of the block buffer. */
  datatype Window = Window(inCmd: bool, at: nat, size: nat) {
    /** Receiving into the block buffer does not touch these octets. */
    predicate Lasts() { size == 0 || inCmd }
  }

  /** Octets received along with a token that follows `gap` idle octets, when `scan` octets were there to be scanned. */
  function Along(scan: nat, gap: nat): (n: nat) {
    if gap < scan then scan - gap - 1 else 7 - (gap - scan) % 8
  }

  /** Where these octets are: behind the token among those scanned, or in the command buffer after polling. */
  function AlongAt(scan: Window, gap: nat): (w: Window)
    ensures w.size == Along(scan.size, gap)
  {
    if gap < scan.size then Window(scan.inCmd, scan.at + gap + 1, scan.size - gap - 1)
    else Window(true, CMD_R1, Along(scan.size, gap))
  }

  /** Octets received behind the payload of a block: its checksum, and two more if it is not the last one. */
  function Behind(last: bool): (n: nat) { if last then 2 else 4 }

  /** What becomes of a block's payload when its first octets, received along with the token, wait at `extra`: if that
      is in the block buffer, they give way to what is then received in their place. */
  function Got(b: Block, more: seq<byte>, last: bool, extra: Window): (s: seq<byte>)
    ensures |s| == |b.payload|
  {
    if extra.Lasts() || extra.size > |b.payload| then b.payload else
      var all, n := b.payload + b.crc + more, |b.payload| - extra.size + Behind(last);
      seq(extra.size, i requires 0 <= i < extra.size =>
        if extra.at + i < n && extra.size + extra.at + i < |all| then all[extra.size + extra.at + i] else b.payload[i])
      + b.payload[extra.size..]
  }

  /** What is there to be scanned after a block. */
  function ScanNext(b: Block, last: bool, extra: Window): (w: Window) {
    Window(false, if extra.size <= |b.payload| then |b.payload| - extra.size + 2 else 0, Behind(last) - 2)
  }

  /** What receiving one block comes to. */
  function BlockOutcome(b: Block, more: seq<byte>, last: bool, scan: Window, polls: nat, checked: bool,
                        crc16: seq<byte> -> seq<byte>): (r: Result) {
    var extra := AlongAt(scan, |b.gap|);
    if |b.gap| >= scan.size + 8 * (polls + 1) then Timeout
    else if extra.size > |b.payload| then Overrun
    else if checked && crc16(Got(b, more, last, extra)) != b.crc then InvalidCrc
    else Ok
  }

  /** What reading all blocks comes to: the first failure decides. */
  function Outcome(blocks: seq<Block>, trail: seq<byte>, scan: Window, polls: nat, checked: bool,
                   crc16: seq<byte> -> seq<byte>): (r: Result) {
    if blocks == [] then Ok else
      var b, more, last := blocks[0], WireAll(blocks[1..], trail), |blocks| == 1;
      var r := BlockOutcome(b, more, last, scan, polls, checked, crc16);
      if r.Ok? then
        Outcome(blocks[1..], trail, ScanNext(b, last, AlongAt(scan, |b.gap|)), polls, checked, crc16)
      else r
  }

  /** What reading all blocks puts into the caller's buffer. */
  function Copied(blocks: seq<Block>, trail: seq<byte>, scan: Window): (s: seq<byte>) {
    if blocks == [] then [] else
      var b, more, last := blocks[0], WireAll(blocks[1..], trail), |blocks| == 1;
      var extra := AlongAt(scan, |b.gap|);
      Got(b, more, last, extra) + Copied(blocks[1..], trail, ScanNext(b, last, extra))
  }

  /** Every token comes before the polling time is over. */
  ghost predicate Prompt(scan: nat, polls: nat, blocks: seq<Block>) {
    forall i :: 0 <= i < |blocks| ==> |blocks[i].gap| < (if i == 0 then scan else 2) + 8 * (polls + 1)
  }

  /** No block is shorter than what is received along with its token. */
  ghost predicate LongEnough(scan: nat, blocks: seq<Block>) {
    forall i :: 0 <= i < |blocks| ==> Along(if i == 0 then scan else 2, |blocks[i].gap|) <= |blocks[i].payload|
  }

  /** The checksums fit what is put into the caller's buffer. */
  ghost predicate CopiesCheck(crc16: seq<byte> -> seq<byte>, blocks: seq<Block>, trail: seq<byte>, scan: Window)
    decreases |blocks|
  {
    blocks == [] ||
    (var b, more, last := blocks[0], WireAll(blocks[1..], trail), |blocks| == 1;
     var extra := AlongAt(scan, |b.gap|);
     crc16(Got(b, more, last, extra)) == b.crc && CopiesCheck(crc16, blocks[1..], trail, ScanNext(b, last, extra)))
  }

  ghost predicate ChecksumsHold(crc16: seq<byte> -> seq<byte>, blocks: seq<Block>) {
    forall i :: 0 <= i < |blocks| ==> crc16(blocks[i].payload) == blocks[i].crc
  }

  /** Reading succeeds if and only if every token comes in time, no block is shorter than what is received along with
      its token and, if checked, every checksum fits what is delivered. */
  lemma {:induction false} OutcomeOk(blocks: seq<Block>, trail: seq<byte>, scan: Window, polls: nat, checked: bool,
                                     crc16: seq<byte> -> seq<byte>)
    ensures Outcome(blocks, trail, scan, polls, checked, crc16).Ok?
       <==> Prompt(scan.size, polls, blocks) && LongEnough(scan.size, blocks)
            && (checked ==> CopiesCheck(crc16, blocks, trail, scan))
    decreases |blocks|
  {
    if blocks != [] {
      var rest := blocks[1..];
      var next := ScanNext(blocks[0], |blocks| == 1, AlongAt(scan, |blocks[0].gap|));
      OutcomeOk(rest, trail, next, polls, checked, crc16);
      assert rest != [] ==> next.size == 2;
      hide Got, ScanNext, AlongAt, WireAll, Along;
      assert forall i :: 0 < i < |blocks| ==> blocks[i] == rest[i - 1];
      assert forall i :: 0 <= i < |rest| ==> rest[i] == blocks[i + 1];
    }
  }

  /** An idle octet or more comes between each checksum and the next token. */
  ghost predicate Spaced(blocks: seq<Block>) {
    forall i :: 0 < i < |blocks| ==> |blocks[i].gap| >= 1
  }

  /** The octets received along with the first token outlast the reception of the block. */
  ghost predicate Safe(scan: Window, blocks: seq<Block>) {
    blocks != [] ==> scan.inCmd || scan.size <= 1 || (scan.size == 2 && |blocks[0].gap| >= 1)
  }

  /** With an idle octet before each token the payloads arrive as they are. */
  lemma {:induction false} SpacedIntact(blocks: seq<Block>, trail: seq<byte>, scan: Window,
                                        crc16: seq<byte> -> seq<byte>)
    requires Spaced(blocks) && Safe(scan, blocks)
    ensures Copied(blocks, trail, scan) == Payloads(blocks)
    ensures CopiesCheck(crc16, blocks, trail, scan) <==> ChecksumsHold(crc16, blocks)
    decreases |blocks|
  {
    if blocks != [] {
      var b, rest := blocks[0], blocks[1..];
      var extra := AlongAt(scan, |b.gap|);
      assert extra.Lasts();
      assert forall i :: 0 < i < |blocks| ==> blocks[i] == rest[i - 1];
      assert forall i :: 0 <= i < |rest| ==> rest[i] == blocks[i + 1];
      SpacedIntact(rest, trail, ScanNext(b, |blocks| == 1, extra), crc16);
    }
  }

  /** When a block behind another one arrives as it is: if an idle octet comes before its token, if its first octet
      waits behind all that is then received, or if that octet happens to be the one received in its place. */
  lemma GotExactly(b: Block, more: seq<byte>, last: bool, at: nat)
    requires |b.payload| >= 1 && |b.crc| == 2 && |more| >= Behind(last) - 2
    ensures Got(b, more, last, AlongAt(Window(false, at, 2), |b.gap|)) == b.payload
       <==> |b.gap| >= 1 || at + 2 >= |b.payload| + Behind(last) || (b.payload + b.crc + more)[at + 2] == b.payload[0]
  {
    var extra := AlongAt(Window(false, at, 2), |b.gap|);
    if |b.gap| == 0 {
      assert extra == Window(false, at + 1, 1);
      var g := Got(b, more, last, extra);
      assert g[0] == if at + 2 < |b.payload| + Behind(last) then (b.payload + b.crc + more)[at + 2] else b.payload[0];
      assert g[1..] == b.payload[1..];
      assert b.payload == [b.payload[0]] + b.payload[1..] && g == [g[0]] + g[1..];
    } else {
      assert extra.Lasts();
    }
  }

  /** Sizes for which the driver's subtraction of those octets from the block size cannot underflow; if it does, the
      driver goes on with a length beyond all buffers, and the model ends with `Overrun`. */
  predicate Readable(n: nat) { n % MAX_DATA == 0 || n % MAX_DATA >= 7 }

  /** Exactly these: a shorter last block underflows when its token is the first octet of a poll. */
  lemma ReadableExactly(n: nat, scan: nat)
    requires scan <= EXTRA
    ensures Readable(n) <==> n % MAX_DATA == 0 || forall gap :: 0 <= gap ==> Along(scan, gap) <= n % MAX_DATA
  {
    if !Readable(n) {
      assert Along(scan, scan) == 7;
    }
  }

  /** Index of the first start token, or the length. */
  method ScanFor(s: seq<byte>) returns (i: nat)
    ensures i <= |s| && (forall j :: 0 <= j < i ==> s[j] != TOKEN) && (i < |s| ==> s[i] == TOKEN)
  {
    i := 0;
    while i < |s|
      invariant i <= |s| && forall j :: 0 <= j < i ==> s[j] != TOKEN
    {
      if s[i] == TOKEN {
        return;
      }
      i := i + 1;
    }
  }

  /** In gap + token + tail, with no token in the gap, the first token is at the end of the gap. */
  lemma FirstToken(s: seq<byte>, gap: seq<byte>, tail: seq<byte>, i: nat)
    requires s == gap + [TOKEN] + tail && IdleGap(gap) && i < |s|
    requires forall j :: 0 <= j < i ==> s[j] != TOKEN
    ensures i <= |gap| && (s[i] == TOKEN <==> i == |gap|)
    ensures s[i] == TOKEN ==> s[i + 1..] == tail
  {
    assert s[|gap|] == TOKEN;
    assert i < |gap| ==> s[i] == gap[i];
  }

  /** The card is about to send idle octets, the start token and then a tail long enough for one poll. */
  ghost predicate Announces(s: seq<byte>, gap: seq<byte>, tail: seq<byte>) {
    s == gap + [TOKEN] + tail && IdleGap(gap) && |tail| >= 7
  }

  lemma EightLater(s: seq<byte>, t: seq<byte>, rest: seq<byte>, gap: seq<byte>, tail: seq<byte>)
    requires Announces(s, gap, tail) && |t| == 8 && t + rest == s && |gap| >= 8
    ensures Announces(rest, gap[8..], tail)
  {
    assert rest == (t + rest)[8..] == gap[8..] + [TOKEN] + tail;
  }

  /** Everything the card sends from the command on: octets clocked during the command, idle octets, R1, the blocks, and
      whatever the line carries afterwards. */
  datatype Card = Card(head: seq<byte>, delay: seq<byte>, r1: byte, blocks: seq<Block>, trail: seq<byte>) {
    ghost predicate Sends(s: seq<byte>) {
      && |head| == CMD_R1 - 1 && r1 < 0x80 && |trail| >= 7
      && (forall i :: 0 <= i < |delay| ==> delay[i] >= 0x80)
      && s == head + delay + [r1] + WireAll(blocks, trail)
    }

    /** Looking for the first octet below 0x80 behind the head finds R1, if it looks far enough. */
    lemma ResponseAt(s: seq<byte>, at: nat)
      requires Sends(s) && CMD_R1 <= at <= CMD_R1 + EXTRA <= |s|
      requires forall j :: CMD_R1 - 1 <= j < at - 1 ==> s[j] >= 0x80
      requires s[at - 1] < 0x80 || at == CMD_R1 + EXTRA
      ensures s[at - 1] < 0x80 <==> |delay| <= EXTRA
      ensures s[at - 1] < 0x80 ==> at == CMD_R1 + |delay| && s[at..] == WireAll(blocks, trail)
    {
      hide WireAll;
      var k := |head| + |delay|;
      assert s[k] == r1 && s[k + 1..] == WireAll(blocks, trail);
      assert forall j :: |head| <= j < k ==> s[j] == delay[j - |head|];
    }
  }

  /** The card sends the rest of a block and then what follows it. */
  ghost predicate Follows(s: seq<byte>, rx: nat, block: Block, more: seq<byte>) {
    && s == block.payload + block.crc + more
    && |block.payload| == Min(rx, MAX_DATA) && |block.crc| == 2 && (rx > MAX_DATA ==> |more| >= 2)
  }

  /** The first n octets, as far as there are any, are idle. */
  ghost predicate IdleTo(s: seq<byte>, n: nat) {
    forall i :: 0 <= i < n && i < |s| ==> Idle(s[i])
  }

  /** Octet i is the first that is not idle, and it is not the start token. */
  ghost predicate StrayAt(s: seq<byte>, i: nat) {
    i < |s| && IdleTo(s, i) && !Idle(s[i]) && s[i] != TOKEN
  }

  /** Within the first n octets something other than the start token comes first. */
  ghost predicate Stray(s: seq<byte>, n: nat) {
    exists i: nat :: i < n && StrayAt(s, i)
  }

  /** Within the first n octets the start token comes first. */
  ghost predicate TokenFirst(s: seq<byte>, n: nat) {
    exists i: nat :: i < n && i < |s| && IdleTo(s, i) && s[i] == TOKEN
  }

  lemma TokenNotStray(s: seq<byte>, n: nat, m: nat)
    requires TokenFirst(s, n)
    ensures !Stray(s, m)
  {
  }

  lemma IdleNotStray(s: seq<byte>, n: nat)
    requires IdleTo(s, n)
    ensures !Stray(s, n) && !TokenFirst(s, n)
  {
  }

  /** What one poll after k idle octets means for the first n octets. */
  lemma PollStep(s: seq<byte>, k: nat, n: nat)
    requires IdleTo(s, k) && k + 8 <= n
    ensures var rest := Later(s, k);
      && (TokenFirst(rest, 8) ==> TokenFirst(s, n) && !Stray(s, n))
      && (Stray(rest, 8) ==> Stray(s, n))
      && (IdleTo(rest, 8) ==> IdleTo(s, k + 8) && Later(rest, 8) == Later(s, k + 8))
  {
    var m := Min(k, |s|);
    var rest := s[m..];
    assert forall i :: m <= i < |s| ==> s[i] == rest[i - m];
    if i: nat :| i < 8 && StrayAt(rest, i) {
      assert StrayAt(s, m + i);
    }
    if i: nat :| i < 8 && i < |rest| && IdleTo(rest, i) && rest[i] == TOKEN {
      assert IdleTo(s, m + i) && s[m + i] == TOKEN;
      TokenNotStray(s, n, n);
    }
  }

  datatype Poll = Found | NotYet | Garbage

  class Reader {
    const bus: Bus
    /** Command buffer, where the octets received along with a command or a poll are kept. */
    const cmd: array<byte>
    /** Block buffer. */
    const buf: array<byte>
    const dst: array<byte>

    ghost const Repr: set<object> := {bus, cmd, buf, dst}

    ghost predicate Shape() {
      && cmd.Length == CMD_R1 + EXTRA && buf.Length == MAX_DATA + 4
      && cmd != buf && cmd != dst && buf != dst
    }

    constructor (bus: Bus, dst: array<byte>)
      ensures Shape() && this.bus == bus && this.dst == dst && fresh(cmd) && fresh(buf)
    {
      this.bus, this.dst := bus, dst;
      cmd := new byte[CMD_R1 + EXTRA](_ => 0xFF);
      buf := new byte[MAX_DATA + 4](_ => 0xFF);
    }

    /** Receive 8 octets and look for the start token; keep what follows it in the command buffer. */
    method PollOnce(ghost gap: seq<byte>, ghost tail: seq<byte>) returns (p: Poll, extra: nat)
      requires Shape()
      modifies bus, cmd
      ensures extra < 8
      ensures Announces(old(bus.rest), gap, tail) && |gap| < 8 ==>
        p.Found? && extra == 7 - |gap| && cmd[CMD_R1..CMD_R1 + extra] + bus.rest == tail
      ensures Announces(old(bus.rest), gap, tail) && |gap| >= 8 ==> p.NotYet? && Announces(bus.rest, gap[8..], tail)
      ensures p.Found? ==> TokenFirst(old(bus.rest), 8)
      ensures p.Garbage? ==> Stray(old(bus.rest), 8)
      ensures p.NotYet? ==> IdleTo(old(bus.rest), 8) && bus.rest == Later(old(bus.rest), 8)
    {
      ghost var s := bus.rest;
      var t := bus.Transfer(8);
      assert forall i :: 0 <= i < 8 ==> t[i] == if i < |s| then s[i] else 0xFF;
      hide Clocked, Later;
      ghost var good, rest := Announces(s, gap, tail), bus.rest;
      assert good ==> |s| >= 8 && t + rest == s;
      extra := 0;
      for i := 0 to 8
        invariant forall j :: 0 <= j < i ==> t[j] != TOKEN
        invariant bus.rest == rest && (good ==> i <= |gap|) && IdleTo(s, i)
      {
        if good {
          assert forall j :: 0 <= j < 8 ==> t[j] == s[j];
          FirstToken(s, gap, tail, i);
        }
        if t[i] == TOKEN {
          CopyTo(cmd, CMD_R1, t[i + 1..]);
          extra := 7 - i;
          assert cmd[CMD_R1..CMD_R1 + extra] == t[i + 1..];
          assert good ==> t[i + 1..] + rest == (t + rest)[i + 1..] == tail;
          return Found, extra;
        }
        if !Idle(t[i]) {
          assert StrayAt(s, i);
          return Garbage, 0;
        }
      }
      if good {
        EightLater(s, t, rest, gap, tail);
      }
      return NotYet, 0;
    }

    /** Poll until a start token shows up or the time for `polls` more polls is over. */
    method PollToken(polls: nat, ghost gap: seq<byte>, ghost tail: seq<byte>) returns (r: Result, extra: nat)
      requires Shape()
      modifies bus, cmd
      ensures extra < 8
      ensures Announces(old(bus.rest), gap, tail) ==> r == if |gap| < 8 * (polls + 1) then Ok else Timeout
      ensures Announces(old(bus.rest), gap, tail) && r.Ok? ==>
        extra == Along(0, |gap|) && cmd[CMD_R1..CMD_R1 + extra] + bus.rest == tail
      ensures r.InvalidResponse? <==> Stray(old(bus.rest), 8 * (polls + 1))
      ensures r.Ok? ==> TokenFirst(old(bus.rest), 8 * (polls + 1))
    {
      ghost var all := bus.rest;
      ghost var good := Announces(bus.rest, gap, tail);
      assert IdleTo(all, 0) && Later(all, 0) == all;
      hide IdleTo, Stray, TokenFirst, Announces, Later, Clocked;
      assert gap[0..] == gap;
      for k := 0 to polls + 1
        invariant good ==> 8 * k <= |gap| && Announces(bus.rest, gap[8 * k..], tail)
        invariant IdleTo(all, 8 * k) && bus.rest == Later(all, 8 * k)
      {
        PollStep(all, 8 * k, 8 * (polls + 1));
        assert 8 * (k + 1) <= |gap| ==> gap[8 * k..][8..] == gap[8 * (k + 1)..];
        var p, n := PollOnce(if 8 * k <= |gap| then gap[8 * k..] else [], tail);
        match p
        case Found => return Ok, n;
        case Garbage => return InvalidResponse, 0;
        case NotYet =>
      }
      IdleNotStray(all, 8 * (polls + 1));
      return Timeout, 0;
    }

    /** A stretch of octets in the command or the block buffer. */
    ghost predicate InRange(w: Window) {
      w.at + w.size <= (if w.inCmd then cmd.Length else buf.Length)
    }

    ghost function Contents(w: Window): (s: seq<byte>)
      requires Shape() && InRange(w)
      reads cmd, buf
      ensures |s| == w.size
    {
      if w.inCmd then cmd[w.at..w.at + w.size] else buf[w.at..w.at + w.size]
    }

    /** Find the start token, first among the octets already received, then by polling; what follows it is returned. */
    method FindToken(scan: Window, polls: nat, ghost gap: seq<byte>, ghost tail: seq<byte>)
      returns (r: Result, extra: Window)
      requires Shape() && InRange(scan) && scan.size <= EXTRA && (!scan.inCmd ==> scan.size <= 2)
      modifies bus, cmd
      ensures InRange(extra) && extra.size < 8
      ensures Announces(old(Contents(scan) + bus.rest), gap, tail) ==>
        && r == (if |gap| < scan.size + 8 * (polls + 1) then Ok else Timeout)
        && (r.Ok? ==> Contents(extra) + bus.rest == tail && extra == AlongAt(scan, |gap|))
      ensures TOKEN !in old(Contents(scan)) ==> (r.InvalidResponse? <==> Stray(old(bus.rest), 8 * (polls + 1)))
    {
      hide Stray;
      ghost var w, rest := Contents(scan), bus.rest;
      ghost var good := Announces(w + rest, gap, tail);
      var i := ScanFor((if scan.inCmd then cmd else buf)[scan.at..scan.at + scan.size]);
      if good && i < |w + rest| {
        assert forall j :: 0 <= j < i ==> (w + rest)[j] == w[j] != TOKEN;
        FirstToken(w + rest, gap, tail, i);
      }
      if i < scan.size {
        extra := Window(scan.inCmd, scan.at + i + 1, scan.size - i - 1);
        assert Contents(extra) == w[i + 1..];
        assert w[i + 1..] + rest == (w + rest)[i + 1..];
        return Ok, extra;
      }
      if good {
        assert (w + rest)[|gap|] == TOKEN && |w| <= |gap|;
        assert rest == (w + rest)[|w|..] == gap[|w|..] + [TOKEN] + tail;
      }
      var n;
      r, n := PollToken(polls, if |w| <= |gap| then gap[|w|..] else [], tail);
      extra := Window(true, CMD_R1, n);
    }

    /** Receive n octets into the block buffer. */
    method Fetch(n: nat) returns (ghost t: seq<byte>)
      requires Shape() && n <= buf.Length
      modifies bus, buf
      ensures |t| == n && buf[..n] == t && buf[n..] == old(buf[n..])
      ensures n <= |old(bus.rest)| ==> t + bus.rest == old(bus.rest)
    {
      CopyTo(buf, 0, seq(n, _ => 0xFF));
      var u := bus.Transfer(n);
      CopyTo(buf, 0, u);
      t := u;
    }

    /** Put the octets received along with the token and the first n of the block buffer into the caller's buffer. */
    method Deliver(off: nat, extra: Window, n: nat)
      requires Shape() && InRange(extra) && n <= buf.Length && off + extra.size + n <= dst.Length
      modifies dst
      ensures dst[..off] == old(dst[..off])
      ensures dst[off..off + extra.size + n] == Contents(extra) + buf[..n]
    {
      PatchedTwice(dst[..], off, Contents(extra), buf[..n]);
      CopyTo(dst, off + extra.size, buf[..n]);
      CopyTo(dst, off, (if extra.inCmd then cmd else buf)[extra.at..extra.at + extra.size]);
    }

    /** Receive one block behind its start token, unless it is shorter than what was received along with the token. */
    method Receive(rx: nat, off: nat, extra: Window, checked: bool, crc16: seq<byte> -> seq<byte>,
                   ghost block: Block, ghost more: seq<byte>) returns (r: Result, scan: Window)
      requires Shape() && rx > 0 && off + rx <= dst.Length && InRange(extra) && extra.size < 8
      modifies bus, buf, dst
      ensures r.Ok? || r.InvalidCrc? || r.Overrun?
      ensures r.Overrun? <==> extra.size > Min(rx, MAX_DATA)
      ensures InRange(scan) && !scan.inCmd && scan.size == if rx > MAX_DATA then 2 else 0
      ensures dst[..off] == old(dst[..off])
      ensures Follows(old(Contents(extra) + bus.rest), rx, block, more) && !r.Overrun? ==>
        var got := Got(block, more, rx <= MAX_DATA, extra);
        && dst[off..off + Min(rx, MAX_DATA)] == got
        && Contents(scan) + bus.rest == more && scan == ScanNext(block, rx <= MAX_DATA, extra)
        && (r.Ok? <==> !checked || crc16(got) == block.crc)
    {
      if extra.size > Min(rx, MAX_DATA) {
        return Overrun, Window(false, 0, if rx > MAX_DATA then 2 else 0);
      }
      hide Contents, Follows, Got;
      r, scan := ReceiveRest(rx, off, extra, checked, crc16, block, more);
    }

    /** Receive what is missing of a block, and what comes behind it, into the block buffer. */
    method Arrive(rx: nat, extra: Window, ghost block: Block, ghost more: seq<byte>)
      returns (crc: seq<byte>, scan: Window)
      requires Shape() && rx > 0 && InRange(extra) && extra.size <= Min(rx, MAX_DATA)
      modifies bus, buf
      ensures InRange(scan) && !scan.inCmd && scan.size == if rx > MAX_DATA then 2 else 0
      ensures Follows(old(Contents(extra) + bus.rest), rx, block, more) ==>
        && Contents(extra) + buf[..Min(rx, MAX_DATA) - extra.size] == Got(block, more, rx <= MAX_DATA, extra)
        && Contents(scan) + bus.rest == more && scan == ScanNext(block, rx <= MAX_DATA, extra) && crc == block.crc
    {
      var along := if rx > MAX_DATA then 4 else 2;
      var will := Min(rx, MAX_DATA) - extra.size;
      ghost var s, x, was := bus.rest, Contents(extra), buf[..];
      ghost var t := Fetch(will + along);
      crc := buf[will..will + 2];
      scan := Window(false, will + 2, along - 2);
      assert crc == t[will..will + 2] && Contents(scan) == t[will + 2..] && buf[..will] == t[..will];
      assert buf[..] == t + was[|t|..];
      if Follows(x + s, rx, block, more) {
        Split(x, s, t, bus.rest, block.payload, block.crc, more, along);
        if extra.inCmd {
          assert Got(block, more, rx <= MAX_DATA, extra) == block.payload;
        } else {
          assert x == was[extra.at..extra.at + extra.size];
          assert Contents(extra) == buf[..][extra.at..extra.at + extra.size];
          hide Got, Contents;
          Displaced(block, more, rx <= MAX_DATA, extra, was, t, s, bus.rest);
        }
      }
    }

    /** Receive what is missing of a block, keep the octets after its checksum for scanning, check it. */
    method ReceiveRest(rx: nat, off: nat, extra: Window, checked: bool, crc16: seq<byte> -> seq<byte>,
                       ghost block: Block, ghost more: seq<byte>) returns (r: Result, scan: Window)
      requires Shape() && rx > 0 && off + rx <= dst.Length && InRange(extra) && extra.size <= Min(rx, MAX_DATA)
      modifies bus, buf, dst
      ensures r.Ok? || r.InvalidCrc?
      ensures InRange(scan) && !scan.inCmd && scan.size == if rx > MAX_DATA then 2 else 0
      ensures dst[..off] == old(dst[..off])
      ensures Follows(old(Contents(extra) + bus.rest), rx, block, more) ==>
        var got := Got(block, more, rx <= MAX_DATA, extra);
        && dst[off..off + Min(rx, MAX_DATA)] == got
        && Contents(scan) + bus.rest == more && scan == ScanNext(block, rx <= MAX_DATA, extra)
        && (r.Ok? <==> !checked || crc16(got) == block.crc)
    {
      hide Contents, Follows, Got, ScanNext;
      var n := Min(rx, MAX_DATA);
      var crc;
      crc, scan := Arrive(rx, extra, block, more);
      Deliver(off, extra, n - extra.size);
      if checked && crc16(dst[off..off + n]) != crc {
        return InvalidCrc, scan;
      }
      return Ok, scan;
    }

    /** Send the command and find R1, at once or within the 8 octets received along; the rest of them is scanned. */
    method StartCommand(ghost card: Card) returns (r: Result, scan: Window)
      requires Shape()
      modifies bus, cmd
      ensures InRange(scan) && scan.inCmd && scan.size <= EXTRA
      ensures card.Sends(old(bus.rest)) && |WireAll(card.blocks, card.trail)| >= 8 ==>
        && r == (if |card.delay| <= 8 then Ok else Timeout)
        && (r.Ok? ==> scan == Window(true, CMD_R1 + |card.delay|, EXTRA - |card.delay|))
        && (r.Ok? ==> Contents(scan) + bus.rest == WireAll(card.blocks, card.trail))
    {
      ghost var s, w := bus.rest, WireAll(card.blocks, card.trail);
      ghost var good := card.Sends(s) && |w| >= 8;
      assert good ==> |s| >= CMD_R1 + EXTRA;
      hide Clocked, WireAll, Card.Sends, Min, Later;
      ghost var t := Exchange();
      var at := FindR1();
      scan := Window(true, at, CMD_R1 + EXTRA - at);
      if good {
        FrontPart(s, t, bus.rest, at);
        card.ResponseAt(s, at);
        assert Contents(scan) == t[at..];
      }
      return if cmd[at - 1] >= 0x80 then Timeout else Ok, scan;
    }

    /** Clock the command out and what comes along with it into the command buffer. */
    method Exchange() returns (ghost t: seq<byte>)
      requires Shape()
      modifies bus, cmd
      ensures |t| == CMD_R1 + EXTRA && cmd[..] == t && (|t| <= |old(bus.rest)| ==> t + bus.rest == old(bus.rest))
    {
      var u := bus.Transfer(CMD_R1 + EXTRA);
      CopyTo(cmd, 0, u);
      t := u;
      assert cmd[..] == u;
    }

    /** Look for R1 where it is expected and then among the octets received along; the place behind it, or the end. */
    method FindR1() returns (at: nat)
      requires Shape()
      ensures CMD_R1 <= at <= CMD_R1 + EXTRA
      ensures forall j :: CMD_R1 - 1 <= j < at - 1 ==> cmd[j] >= 0x80
      ensures cmd[at - 1] < 0x80 || at == CMD_R1 + EXTRA
    {
      var r1 := cmd[CMD_R1 - 1];
      var size: nat := EXTRA;
      at := CMD_R1;
      while r1 >= 0x80 && size > 0
        invariant at + size == CMD_R1 + EXTRA && at >= CMD_R1 && r1 == cmd[at - 1]
        invariant forall j :: CMD_R1 - 1 <= j < at - 1 ==> cmd[j] >= 0x80
        decreases size
      {
        r1 := cmd[at];
        at := at + 1;
        size := size - 1;
      }
    }

    /** One round of the read loop: find the start token of the next block and receive the block. */
    method ReadBlock(left: nat, off: nat, scan: Window, polls: nat, checked: bool, crc16: seq<byte> -> seq<byte>,
                     ghost todo: seq<Block>, ghost trail: seq<byte>) returns (r: Result, scan': Window)
      requires Shape() && left > 0 && off + left <= dst.Length
      requires InRange(scan) && scan.size <= EXTRA && (scan.inCmd || scan.size <= 2)
      modifies bus, cmd, buf, dst
      ensures r.Ok? ==> InRange(scan') && !scan'.inCmd && scan'.size == if left > MAX_DATA then 2 else 0
      ensures Coming(old(Contents(scan) + bus.rest), todo, left, trail) ==>
        var b, more, last := todo[0], WireAll(todo[1..], trail), left <= MAX_DATA;
        var extra := AlongAt(scan, |b.gap|);
        && (r.Ok? ==> dst[..off + Min(left, MAX_DATA)] == old(dst[..off]) + Got(b, more, last, extra))
        && (r.Ok? ==> Contents(scan') + bus.rest == more && scan' == ScanNext(b, last, extra))
        && r == BlockOutcome(b, more, last, scan, polls, checked, crc16)
    {
      ghost var good := Coming(Contents(scan) + bus.rest, todo, left, trail);
      ghost var b := if todo == [] then Block([], [], []) else todo[0];
      ghost var more := if todo == [] then [] else WireAll(todo[1..], trail);
      if good {
        NextBlock(todo, left, trail);
      }
      hide Coming, Carries, WireAll, Wire, Announces, Follows, Along, Contents, Min, Got, ScanNext, AlongAt, Stray;
      var extra;
      r, extra := FindToken(scan, polls, b.gap, b.payload + b.crc + more);
      if !r.Ok? {
        return r, scan;
      }
      ghost var was := dst[..off];
      r, scan' := Receive(left, off, extra, checked, crc16, b, more);
      if good && r.Ok? {
        Halves(dst[..], off, |b.payload|);
      }
    }

    /** Read rx octets. On a well-formed card stream the result is exactly the outcome of its gaps and checksums, and
        on success the caller's buffer holds exactly what `Copied` says, wherever the tokens fall. */
    method ReadBlocks(rx: nat, polls: nat, checked: bool, crc16: seq<byte> -> seq<byte>, ghost card: Card)
      returns (r: Result)
      requires Shape() && rx <= dst.Length
      modifies bus, cmd, buf, dst
      ensures rx > 0 && card.Sends(old(bus.rest)) && Carries(card.blocks, rx) ==>
        if |card.delay| <= 8 then
          var scan := Window(true, CMD_R1 + |card.delay|, EXTRA - |card.delay|);
          && r == Outcome(card.blocks, card.trail, scan, polls, checked, crc16)
          && (r.Ok? ==> dst[..rx] == Copied(card.blocks, card.trail, scan) && bus.rest == card.trail)
          && (r.Ok? && Spaced(card.blocks) ==> dst[..rx] == Payloads(card.blocks))
        else r.Timeout?
    {
      if rx > 0 && Carries(card.blocks, rx) && |card.trail| >= 7 {
        WireLongEnough(card.blocks, rx, card.trail);
      }
      assert Payloads([]) == [];
      assert card.Sends(bus.rest) ==> |card.trail| >= 7;
      if Spaced(card.blocks) && |card.delay| <= 8 {
        SpacedIntact(card.blocks, card.trail, Window(true, CMD_R1 + |card.delay|, EXTRA - |card.delay|), crc16);
      }
      hide Carries, WireAll, Payloads, Announces, Follows, Wire, Card.Sends, Outcome, Contents, Shape, Copied, Spaced;
      var scan;
      r, scan := StartCommand(card);
      if r.Ok? {
        r := ReadLoop(rx, scan, polls, checked, crc16, card.blocks, card.trail);
      }
    }

    /** What reading these blocks comes to, and with what in the caller's buffer. */
    ghost predicate Delivered(r: Result, rx: nat, scan: Window, polls: nat, checked: bool,
                              crc16: seq<byte> -> seq<byte>, blocks: seq<Block>, trail: seq<byte>)
      requires rx <= dst.Length
      reads dst, bus
    {
      && r == Outcome(blocks, trail, scan, polls, checked, crc16)
      && (r.Ok? ==> dst[..rx] == Copied(blocks, trail, scan) && (rx > 0 ==> bus.rest == trail))
    }

    method ReadLoop(rx: nat, first: Window, polls: nat, checked: bool, crc16: seq<byte> -> seq<byte>,
                    ghost blocks: seq<Block>, ghost trail: seq<byte>) returns (r: Result)
      requires Shape() && rx <= dst.Length && InRange(first) && first.inCmd && first.size <= EXTRA
      modifies bus, cmd, buf, dst
      ensures Coming(old(Contents(first) + bus.rest), blocks, rx, trail) ==>
        Delivered(r, rx, first, polls, checked, crc16, blocks, trail)
    {
      ghost var good := Coming(Contents(first) + bus.rest, blocks, rx, trail);
      assert good && rx == 0 ==> blocks == [];
      NoBlocks(trail, polls, checked, crc16);
      assert WireAll([], trail) == trail;
      hide Carries, WireAll, Announces, Follows, Wire, Contents, Outcome, BlockOutcome, Copied, Got, ScanNext, AlongAt;
      var scan := first;
      r := Ok;
      var off: nat, left: nat := 0, rx;
      ghost var todo := blocks;
      while left > 0
        invariant r.Ok? && off + left == rx && InRange(scan) && scan.size <= EXTRA
        invariant scan.inCmd || scan.size <= 2
        invariant good ==> Carries(todo, left) && (left == 0 ==> todo == [])
        invariant good ==> Contents(scan) + bus.rest == WireAll(todo, trail)
        invariant off > 0 && left == 0 ==> scan.size == 0
        invariant good ==> dst[..off] + Copied(todo, trail, scan) == Copied(blocks, trail, first)
        invariant good ==>
          Outcome(todo, trail, scan, polls, checked, crc16) == Outcome(blocks, trail, first, polls, checked, crc16)
      {
        if good {
          NextBlock(todo, left, trail);
          OutcomeStep(todo, trail, scan, polls, checked, crc16);
        }
        ghost var was := dst[..off];
        r, scan := ReadBlock(left, off, scan, polls, checked, crc16, todo, trail);
        if !r.Ok? {
          return;
        }
        off, left := off + Min(left, MAX_DATA), left - Min(left, MAX_DATA);
        if good {
          if left == 0 {
            NothingLeft(todo[1..]);
          }
          todo := todo[1..];
          Regrouped(was, dst[..off], Copied(todo, trail, scan));
        }
      }
    }
  }

  /** The first block to come, as an announcement and as what follows the token. */
  lemma NextBlock(todo: seq<Block>, left: nat, trail: seq<byte>)
    requires left > 0 && Carries(todo, left) && |trail| >= 7
    ensures todo != [] && Carries(todo[1..], left - Min(left, MAX_DATA)) && (|todo| == 1 <==> left <= MAX_DATA)
    ensures var b, more := todo[0], WireAll(todo[1..], trail);
      && Announces(WireAll(todo, trail), b.gap, b.payload + b.crc + more)
      && Follows(b.payload + b.crc + more, left, b, more) && |b.payload| == Min(left, MAX_DATA)
  {
    var b, more := todo[0], WireAll(todo[1..], trail);
    assert WireAll(todo, trail) == b.gap + [TOKEN] + (b.payload + b.crc + more);
    WireAtLeast(todo[1..], trail);
  }

  /** What is still to come: these blocks, for `left` octets, and then the trail. */
  ghost predicate Coming(s: seq<byte>, todo: seq<Block>, left: nat, trail: seq<byte>)
    ensures Coming(s, todo, left, trail) && left > 0 ==> todo != []
  {
    Carries(todo, left) && s == WireAll(todo, trail) && |trail| >= 7
  }

  lemma {:induction false} WireAtLeast(blocks: seq<Block>, trail: seq<byte>)
    ensures |WireAll(blocks, trail)| >= |trail|
    decreases |blocks|
  {
    if blocks != [] {
      WireAtLeast(blocks[1..], trail);
    }
  }

  lemma NothingLeft(blocks: seq<Block>)
    requires Carries(blocks, 0)
    ensures blocks == []
  {
  }

  lemma WireLongEnough(blocks: seq<Block>, left: nat, trail: seq<byte>)
    requires left > 0 && Carries(blocks, left) && |trail| >= 7
    ensures |WireAll(blocks, trail)| >= 8
  {
    WireAtLeast(blocks[1..], trail);
  }

  /** Outcome and copies of the blocks to come, from those of the next one. */
  lemma OutcomeStep(todo: seq<Block>, trail: seq<byte>, scan: Window, polls: nat, checked: bool,
                    crc16: seq<byte> -> seq<byte>)
    requires todo != []
    ensures var b, more, last := todo[0], WireAll(todo[1..], trail), |todo| == 1;
      var extra := AlongAt(scan, |b.gap|);
      var r, next := BlockOutcome(b, more, last, scan, polls, checked, crc16), ScanNext(b, last, extra);
      && Outcome(todo, trail, scan, polls, checked, crc16)
      == (if r.Ok? then Outcome(todo[1..], trail, next, polls, checked, crc16) else r)
      && Copied(todo, trail, scan) == Got(b, more, last, extra) + Copied(todo[1..], trail, next)
  {
    hide Got, ScanNext, AlongAt, WireAll, BlockOutcome;
  }

  lemma FrontPart(s: seq<byte>, t: seq<byte>, rest: seq<byte>, at: nat)
    requires t + rest == s && at <= |t|
    ensures t[at..] + rest == s[at..] && forall j :: 0 <= j < |t| ==> t[j] == s[j]
  {
  }

  lemma Halves(s: seq<byte>, n: nat, m: nat)
    requires n + m <= |s|
    ensures s[..n + m] == s[..n] + s[n..n + m]
  {
  }

  lemma Regrouped(a: seq<byte>, ab: seq<byte>, c: seq<byte>)
    requires a <= ab
    ensures ab + c == a + (ab[|a|..] + c)
  {
  }

  lemma NoBlocks(trail: seq<byte>, polls: nat, checked: bool, crc16: seq<byte> -> seq<byte>)
    ensures forall scan :: Outcome([], trail, scan, polls, checked, crc16) == Ok && Copied([], trail, scan) == []
  {
  }

  /** Octets waiting in the block buffer, after a stretch has been received over its front. */
  lemma Displaced(b: Block, more: seq<byte>, last: bool, extra: Window, was: seq<byte>, t: seq<byte>, s: seq<byte>,
                  rest: seq<byte>)
    requires extra.at + extra.size <= |was| && extra.size <= |b.payload| && |b.crc| == 2 && |more| >= Behind(last) - 2
    requires was[extra.at..extra.at + extra.size] + s == b.payload + b.crc + more && !extra.inCmd
    requires |t| == |b.payload| - extra.size + Behind(last) <= |was| && (|t| <= |s| ==> t + rest == s)
    ensures (t + was[|t|..])[extra.at..extra.at + extra.size] + t[..|b.payload| - extra.size]
         == Got(b, more, last, extra)
  {
    var k, n, tail := extra.size, |b.payload|, b.crc + more;
    var now, got := t + was[|t|..], Got(b, more, last, extra);
    GotParts(b, more, last, extra);
    assert b.payload + tail == b.payload + b.crc + more;
    hide Got;
    assert |t| <= |s| by {
      assert |was[extra.at..extra.at + k]| == k;
    }
    forall i | 0 <= i < k
      ensures now[extra.at + i] == got[i]
    {
      DisplacedOctet(b.payload, tail, k, extra.at, was, t, s, rest, i);
    }
    assert now[extra.at..extra.at + k] == got[..k];
    assert t[..n - k] == got[k..] by {
      TailTaken(b.payload, tail, was[extra.at..extra.at + k], s, k);
      assert forall i :: 0 <= i < |t| ==> t[i] == s[i];
    }
    assert got == got[..k] + got[k..];
  }

  lemma DisplacedOctet(payload: seq<byte>, tail: seq<byte>, k: nat, at: nat, was: seq<byte>, t: seq<byte>, s: seq<byte>,
                       rest: seq<byte>, i: nat)
    requires at + k <= |was| && k <= |payload| && was[at..at + k] + s == payload + tail
    requires |t| <= |was| && |t| <= |s| && t + rest == s && i < k
    ensures (t + was[|t|..])[at + i] == if at + i < |t| then (payload + tail)[k + at + i] else payload[i]
  {
    var x := was[at..at + k];
    TailTaken(payload, tail, x, s, k);
    if at + i < |t| {
      assert (t + was[|t|..])[at + i] == t[at + i] == s[at + i];
    } else {
      assert (t + was[|t|..])[at + i] == was[at + i] == x[i];
    }
  }

  lemma TailTaken(payload: seq<byte>, more: seq<byte>, x: seq<byte>, s: seq<byte>, k: nat)
    requires x + s == payload + more && |x| == k <= |payload|
    ensures x == payload[..k] && forall i :: 0 <= i < |payload| - k ==> s[i] == payload[k + i]
    ensures forall i :: 0 <= i < |s| ==> s[i] == (payload + more)[k + i]
  {
    var all := payload + more;
    assert s == all[k..] && x == all[..k] && payload == all[..|payload|];
  }

  lemma GotParts(b: Block, more: seq<byte>, last: bool, extra: Window)
    requires extra.size <= |b.payload| && |b.crc| == 2 && |more| >= Behind(last) - 2 && !extra.inCmd
    ensures var got, all := Got(b, more, last, extra), b.payload + b.crc + more;
      && got[extra.size..] == b.payload[extra.size..]
      && forall i :: 0 <= i < extra.size ==>
           got[i] == if extra.at + i < |b.payload| - extra.size + Behind(last) then all[extra.size + extra.at + i]
                     else b.payload[i]
  {
  }

  /** How a received stretch divides into payload, checksum and octets to scan. */
  lemma Split(x: seq<byte>, s: seq<byte>, t: seq<byte>, rest: seq<byte>,
              payload: seq<byte>, crc: seq<byte>, more: seq<byte>, along: nat)
    requires x + s == payload + crc + more && |crc| == 2 && |x| <= |payload|
    requires 2 <= along <= 2 + |more| && |t| == |payload| - |x| + along && (|t| <= |s| ==> t + rest == s)
    ensures x + t[..|payload| - |x|] == payload
    ensures t[|payload| - |x|..|payload| - |x| + 2] == crc
    ensures t[|payload| - |x| + 2..] + rest == more
  {
    var will := |payload| - |x|;
    assert |s| == will + 2 + |more|;
    assert payload == (x + s)[..|payload|] == x + s[..will];
    assert crc == (x + s)[|payload|..|payload| + 2] == s[will..will + 2];
    assert more == (x + s)[|payload| + 2..] == s[will + 2..];
    assert s[..will] == t[..will] && s[will..will + 2] == t[will..will + 2];
    assert s[will + 2..] == t[will + 2..] + rest;
  }
}
