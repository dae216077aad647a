/** Full-duplex SPI in one shared client buffer: the transmit side reads ahead of the
    receive side, which overwrites what has been sent.

    The controller and the peer are the environment.  A byte put into the transmit FIFO
    is shifted out some time later, in order, and each byte shifted out brings one byte
    in.  The status bits mean what section 9.6 of the BCM2711 peripherals datasheet says:
    DONE is set when all that was put into the FIFO has been shifted out, TXD while the
    FIFO has space, RXD while an arrived byte has not been read. */
module Spi {
  import opened Memory

  const FIFOLEN := 16

  /** The choices of the environment in one interrupt round: how far shifting has got
      when the interrupt is served, how many pushes find space, how far shifting gets
      meanwhile and how many arrived bytes the read loop still sees.  `Clamp` keeps each
      choice within what the hardware can do. */
  datatype Round = Round(settle: nat, burst: nat, during: nat, arrivals: nat)

  /** Bytes put into the FIFO, shifted over the line, and read back. */
  datatype Line = Line(tcnt: nat, shifted: nat, rcnt: nat)

  function Min(a: nat, b: nat): nat { if a <= b then a else b }

  function Max(a: nat, b: nat): nat { if a <= b then b else a }

  function Clamp(x: nat, lo: nat, hi: nat): (r: nat)
    requires lo <= hi
    ensures lo <= r <= hi
  {
    if x < lo then lo else if x > hi then hi else x
  }

  // ---------------------------------------------------------------- runs, on counters

  ghost predicate Ok(l: Line, tn: nat, rn: nat) {
    l.rcnt <= l.shifted <= l.tcnt <= tn && l.rcnt <= rn && Min(tn, FIFOLEN) <= l.tcnt
  }

  function Settled(l: Line, r: Round): (s: Line)
    requires l.shifted <= l.tcnt
  {
    l.(shifted := Clamp(r.settle, l.shifted, l.tcnt))
  }

  /** The pushes of one round: from an empty FIFO of `depth` places at least `depth` succeed. */
  function Pushes(depth: nat, r: Round): nat { Max(depth, r.burst) }

  function ShiftedBy(l: Line, r: Round, depth: nat, t: nat): (s: nat)
    requires l.shifted <= l.tcnt <= t
    ensures l.shifted <= s <= t
  {
    Clamp(r.during, if t < depth then l.shifted else Max(l.shifted, t - depth), t)
  }

  /** A round with DONE set. */
  function Served(l: Line, r: Round, tn: nat, rn: nat, depth: nat): (s: Line)
    requires l.shifted <= l.tcnt <= tn
  {
    var t := Min(tn, l.tcnt + Pushes(depth, r));
    var s := ShiftedBy(l, r, depth, t);
    Line(t, s, Max(l.rcnt, Min(rn, Clamp(r.arrivals, l.shifted, s))))
  }

  /** The waiting loop: the state it leaves and whether the transfer is reported complete;
      when the rounds are used up the wait times out. */
  function Play(l: Line, rounds: seq<Round>, tn: nat, rn: nat, depth: nat): (r: (Line, bool))
    requires l.shifted <= l.tcnt <= tn
    decreases |rounds|
  {
    if rounds == [] then (l, false)
    else
      var s := Settled(l, rounds[0]);
      if s.shifted < s.tcnt then Play(s, rounds[1..], tn, rn, depth)
      else
        var n := Served(s, rounds[0], tn, rn, depth);
        if n.rcnt < rn then Play(n, rounds[1..], tn, rn, depth) else (n, true)
  }

  function Prefilled(tn: nat): Line { Line(Min(tn, FIFOLEN), 0, 0) }

  lemma {:induction false} PlayKeeps(l: Line, rounds: seq<Round>, tn: nat, rn: nat, depth: nat)
    requires Ok(l, tn, rn)
    ensures var (e, done) := Play(l, rounds, tn, rn, depth);
            Ok(e, tn, rn) && (done ==> e.rcnt == rn && Min(tn, FIFOLEN) <= e.shifted)
    decreases |rounds|
  {
    if rounds != [] {
      var s := Settled(l, rounds[0]);
      if s.shifted < s.tcnt {
        PlayKeeps(s, rounds[1..], tn, rn, depth);
      } else {
        var n := Served(s, rounds[0], tn, rn, depth);
        if n.rcnt < rn {
          PlayKeeps(n, rounds[1..], tn, rn, depth);
        }
      }
    }
  }

  /** The rounds in which the controller has finished all it was given. */
  function Finished(rounds: seq<Round>, tn: nat): (n: nat) {
    if rounds == [] then 0 else (if rounds[0].settle >= tn then 1 else 0) + Finished(rounds[1..], tn)
  }

  /** A round moves on: the FIFO is filled again and all that had arrived is read. */
  lemma ServedProgress(l: Line, r: Round, tn: nat, rn: nat, depth: nat)
    requires Ok(l, tn, rn) && l.shifted == l.tcnt
    ensures var n := Served(l, r, tn, rn, depth);
            Ok(n, tn, rn) && Min(tn, l.tcnt + depth) <= n.tcnt && Min(rn, l.tcnt) <= n.rcnt
  {
  }

  /** Progress: if no more is to be received than sent, the transfer is reported complete
      after at most one finished round per FIFO filling and one more, whatever happens in
      the other rounds. */
  lemma {:induction false} Completes(l: Line, rounds: seq<Round>, tn: nat, rn: nat, depth: nat)
    requires Ok(l, tn, rn) && rn <= tn
    requires Finished(rounds, tn) >= 1 && l.tcnt + depth * (Finished(rounds, tn) - 1) >= tn
    ensures Play(l, rounds, tn, rn, depth).1
    decreases |rounds|
  {
    var s := Settled(l, rounds[0]);
    var f := Finished(rounds[1..], tn);
    if s.shifted < s.tcnt {
      Completes(s, rounds[1..], tn, rn, depth);
    } else {
      ServedProgress(s, rounds[0], tn, rn, depth);
      var n := Served(s, rounds[0], tn, rn, depth);
      if n.rcnt < rn {
        // a round entered with everything sent would have read everything
        assert l.tcnt < tn && f >= 1 by { assert depth * 0 == 0; }
        OneLess(depth, Finished(rounds, tn), f, l.tcnt, n.tcnt, tn);
        Completes(n, rounds[1..], tn, rn, depth);
      }
    }
  }

  /** One finished round per FIFO filling, and one more. */
  ghost predicate EnoughFinished(rounds: seq<Round>, tn: nat, rn: nat, depth: nat) {
    && rn <= tn && Finished(rounds, tn) >= 1
    && Min(tn, FIFOLEN) + depth * (Finished(rounds, tn) - 1) >= tn
  }

  lemma OneLess(depth: nat, all: nat, f: nat, before: nat, after: nat, tn: nat)
    requires 1 <= f <= all <= f + 1 && before + depth * (all - 1) >= tn && after >= Min(tn, before + depth)
    ensures after + depth * (f - 1) >= tn
  {
    assert depth * (f - 1) >= 0;
    if all == f + 1 {
      assert depth * (all - 1) == depth * (f - 1) + depth;
    }
  }

  /** All that holds of the outcome of a transfer. */
  lemma Outcome(rounds: seq<Round>, tn: nat, rn: nat, depth: nat)
    ensures var (e, done) := Play(Prefilled(tn), rounds, tn, rn, depth);
            && e.rcnt <= e.shifted <= e.tcnt <= tn && (done ==> e.rcnt == rn <= tn)
            && (done && tn <= Max(rn, FIFOLEN) ==> e.shifted == tn)
            && (EnoughFinished(rounds, tn, rn, depth) ==> done)
  {
    PlayKeeps(Prefilled(tn), rounds, tn, rn, depth);
    if EnoughFinished(rounds, tn, rn, depth) {
      Completes(Prefilled(tn), rounds, tn, rn, depth);
    }
  }

  /** Some run is reported complete exactly if no more is to be received than sent. */
  lemma CompletesExactly(tn: nat, rn: nat, depth: nat)
    ensures (exists rounds :: Play(Prefilled(tn), rounds, tn, rn, depth).1) <==> rn <= tn
  {
    if rn <= tn {
      var r := Round(tn, tn, tn, tn);
      var s := Settled(Prefilled(tn), r);
      assert s == Line(s.tcnt, s.tcnt, 0);
      var n := Served(s, r, tn, rn, depth);
      assert n.rcnt == rn;
      assert Play(Prefilled(tn), [r], tn, rn, depth) == (n, true);
    }
    if exists rounds :: Play(Prefilled(tn), rounds, tn, rn, depth).1 {
      var rounds :| Play(Prefilled(tn), rounds, tn, rn, depth).1;
      PlayKeeps(Prefilled(tn), rounds, tn, rn, depth);
    }
  }

  /** Some run reports completion while bytes of the client never left the FIFO or the buffer. */
  ghost predicate MayDropData(tn: nat, rn: nat, depth: nat) {
    exists rounds :: var (e, done) := Play(Prefilled(tn), rounds, tn, rn, depth); done && e.shifted < tn
  }

  /** Completion means that everything was sent, exactly when the transmit side is no
      longer than the receive side or fits the FIFO. */
  lemma DropsDataExactly(tn: nat, rn: nat, depth: nat)
    requires depth >= FIFOLEN
    ensures MayDropData(tn, rn, depth) <==> tn > Max(rn, FIFOLEN)
  {
    if tn > Max(rn, FIFOLEN) {
      var r := Round(FIFOLEN, if rn <= FIFOLEN then 0 else rn - FIFOLEN, rn, rn);
      var s := Settled(Prefilled(tn), r);
      assert s == Line(FIFOLEN, FIFOLEN, 0);
      var n := Served(s, r, tn, rn, depth);
      assert n.rcnt == rn && n.shifted < tn;
      assert Play(Prefilled(tn), [r], tn, rn, depth) == (n, true);
    }
    if MayDropData(tn, rn, depth) {
      var rounds :| var (e, done) := Play(Prefilled(tn), rounds, tn, rn, depth); done && e.shifted < tn;
      PlayKeeps(Prefilled(tn), rounds, tn, rn, depth);
    }
  }

  // ---------------------------------------------------------------- the driver

  lemma ReceivedStep(peer: seq<byte>, orig: seq<byte>, b: seq<byte>, rcnt: nat)
    requires rcnt < |orig| && rcnt < |peer| && b == peer[..rcnt] + orig[rcnt..]
    ensures b[rcnt := peer[rcnt]] == peer[..rcnt + 1] + orig[rcnt + 1..]
  {
  }

  class Driver {
    var pbuf: array<byte>
    var tnbytes: nat
    var rnbytes: nat
    var tcnt: nat
    var rcnt: nat
    // the controller and the peer
    const peer: seq<byte>
    const depth: nat
    var fifo: seq<byte>      // all bytes ever put into the transmit FIFO
    var shifted: nat

    constructor (peer: seq<byte>, depth: nat, buf: array<byte>)
      ensures this.peer == peer && this.depth == depth && pbuf == buf
    {
      this.peer, this.depth, this.pbuf := peer, depth, buf;
      tnbytes, rnbytes, tcnt, rcnt, fifo, shifted := 0, 0, 0, 0, [], 0;
    }

    ghost predicate Fits()
      reads this
    {
      tnbytes <= pbuf.Length && rnbytes <= pbuf.Length && tnbytes <= |peer|
    }

    ghost function At(): Line reads this { Line(tcnt, shifted, rcnt) }

    /** The bytes read so far overwrite the front of the buffer; all others are the
        client's, so what is sent is what the client put there. */
    ghost predicate Duplex(orig: seq<byte>)
      reads this, pbuf
    {
      && Fits() && |orig| == pbuf.Length
      && rcnt <= shifted <= tcnt <= tnbytes && rcnt <= rnbytes
      && fifo == orig[..tcnt]
      && pbuf[..] == peer[..rcnt] + orig[rcnt..]
    }

    /** One byte of the buffer into the FIFO. */
    method Push(ghost orig: seq<byte>)
      requires Duplex(orig) && tcnt < tnbytes
      modifies `fifo, `tcnt
      ensures Duplex(orig) && At() == old(At()).(tcnt := old(tcnt) + 1)
    {
      assert pbuf[..][tcnt] == orig[tcnt];
      assert orig[..tcnt + 1] == orig[..tcnt] + [orig[tcnt]];
      fifo := fifo + [pbuf[tcnt]];
      tcnt := tcnt + 1;
    }

    /** One byte from the FIFO into the buffer. */
    method Pull(ghost orig: seq<byte>)
      requires Duplex(orig) && rcnt < shifted && rcnt < rnbytes
      modifies `rcnt, pbuf
      ensures Duplex(orig) && At() == old(At()).(rcnt := old(rcnt) + 1)
    {
      ReceivedStep(peer, orig, pbuf[..], rcnt);
      pbuf[rcnt] := peer[rcnt];
      rcnt := rcnt + 1;
    }

    /** The sending loop, which finds space `limit` times. */
    method Send(limit: nat, ghost orig: seq<byte>)
      requires Duplex(orig)
      modifies `fifo, `tcnt
      ensures Duplex(orig) && At() == old(At()).(tcnt := Min(tnbytes, old(tcnt) + limit))
    {
      ghost var start := tcnt;
      var pushes := 0;
      while tcnt < tnbytes && pushes < limit
        invariant Duplex(orig) && tcnt == start + pushes && shifted == old(shifted) && rcnt == old(rcnt) && pushes <= limit
        decreases tnbytes - tcnt
      {
        Push(orig);
        pushes := pushes + 1;
      }
    }

    /** The reading loop, which finds the first `arrived` bytes. */
    method Receive(arrived: nat, ghost orig: seq<byte>)
      requires Duplex(orig) && arrived <= shifted
      modifies `rcnt, pbuf
      ensures Duplex(orig) && At() == old(At()).(rcnt := Max(old(rcnt), Min(rnbytes, arrived)))
    {
      while rcnt < arrived && rcnt < rnbytes
        invariant Duplex(orig) && old(rcnt) <= rcnt <= Max(old(rcnt), Min(rnbytes, arrived))
        invariant tcnt == old(tcnt) && shifted == old(shifted)
        decreases rnbytes - rcnt
      {
        Pull(orig);
      }
    }

    /** `process_interrupts` with DONE set. */
    method Serve(r: Round, ghost orig: seq<byte>)
      requires Duplex(orig)
      modifies `fifo, `tcnt, `shifted, `rcnt, pbuf
      ensures Duplex(orig) && At() == Served(old(At()), r, tnbytes, rnbytes, depth)
    {
      var entry := Line(tcnt, shifted, rcnt);
      Send(Pushes(depth, r), orig);
      shifted := ShiftedBy(entry, r, depth, tcnt);
      Receive(Clamp(r.arrivals, entry.shifted, shifted), orig);
    }

    /** `bcm2711spi_wait` without DMA. */
    method Wait(rounds: seq<Round>, ghost orig: seq<byte>) returns (done: bool)
      requires Duplex(orig)
      modifies `fifo, `tcnt, `shifted, `rcnt, pbuf
      ensures Duplex(orig) && (At(), done) == Play(old(At()), rounds, tnbytes, rnbytes, depth)
    {
      done := false;
      var i := 0;
      while i < |rounds|
        modifies `fifo, `tcnt, `shifted, `rcnt, pbuf
        invariant 0 <= i <= |rounds| && Duplex(orig)
        invariant Play(At(), rounds[i..], tnbytes, rnbytes, depth) == Play(old(At()), rounds, tnbytes, rnbytes, depth)
      {
        assert rounds[i..][1..] == rounds[i + 1..];
        shifted := Clamp(rounds[i].settle, shifted, tcnt);
        if shifted == tcnt {
          Serve(rounds[i], orig);
          if rcnt >= rnbytes {
            done := true;
            return;
          }
        }
        i := i + 1;
      }
    }

    /** The transaction type, the counters and the first filling of the FIFO. */
    method Begin(tn: nat, rn: nat)
      requires tn <= pbuf.Length && rn <= pbuf.Length && tn <= |peer| && rn <= |peer|
      modifies this
      ensures pbuf == old(pbuf)
      ensures tnbytes == (if tn == 0 then rn else tn) && rnbytes == (if rn == 0 then tn else rn)
      ensures Duplex(old(pbuf[..])) && At() == Prefilled(tnbytes)
    {
      ghost var orig := pbuf[..];
      if tn == 0 {
        tnbytes, rnbytes := rn, rn;
      } else if rn == 0 {
        tnbytes, rnbytes := tn, tn;
      } else {
        tnbytes, rnbytes := tn, rn;
      }
      rcnt, tcnt := 0, 0;
      fifo, shifted := [], 0;
      while tcnt < tnbytes && tcnt < FIFOLEN
        modifies `fifo, `tcnt
        invariant Duplex(orig) && tcnt <= Min(tnbytes, FIFOLEN) && shifted == 0 && rcnt == 0
        decreases tnbytes - tcnt
      {
        Push(orig);
      }
    }

    /** `bcm2711spi_xfer`: true stands for EOK. */
    method Xfer(tn: nat, rn: nat, rounds: seq<Round>) returns (ok: bool)
      requires tn <= pbuf.Length && rn <= pbuf.Length && tn <= |peer| && rn <= |peer|
      modifies this, pbuf
      ensures pbuf == old(pbuf)
      ensures tnbytes == (if tn == 0 then rn else tn) && rnbytes == (if rn == 0 then tn else rn)
      // In every run, complete or not: what went into the FIFO is a front part of the client's
      // data and the buffer is the bytes received followed by the client's own.
      ensures rcnt <= shifted <= tcnt <= tnbytes
      ensures fifo == old(pbuf[..])[..tcnt] && pbuf[..] == peer[..rcnt] + old(pbuf[..])[rcnt..]
      ensures ok ==> rcnt == rnbytes && rnbytes <= tnbytes
      // The reported completion of a duplex transfer of equal lengths.
      ensures ok && (tn == 0 || rn == 0 || tn == rn)
           ==> shifted == tnbytes && fifo == old(pbuf[..])[..tnbytes] && pbuf[..] == peer[..tnbytes] + old(pbuf[..])[tnbytes..]
      ensures ok && tnbytes <= Max(rnbytes, FIFOLEN) ==> shifted == tnbytes
      ensures (At(), ok) == Play(Prefilled(tnbytes), rounds, tnbytes, rnbytes, depth)
      // EOK is reached once the controller has finished often enough, and never if more is
      // to be received than sent.
      ensures EnoughFinished(rounds, tnbytes, rnbytes, depth) ==> ok
      ensures rnbytes > tnbytes ==> !ok
    {
      ghost var orig := pbuf[..];
      Begin(tn, rn);
      Outcome(rounds, tnbytes, rnbytes, depth);
      ok := Wait(rounds, orig);
    }
  }
}
