/** The transmit side of the UART driver of `software/baremetal/src/uart.c`: a
    `BUFLEN`-slot ring buffer with a read and a write index, filled by
    `uart_write_char` and drained by the transmit-complete interrupt. One
    slot always stays empty, so equal indices mean "empty".

    Both operations run with interrupts masked or inside the interrupt
    handler, so each is modelled as one atomic step. The data register is
    modelled by the sequence `transmitted` of the characters written to
    it; the status flags DRE and TXC are parameters. */
module Uart {

  import opened Bytes

  const BUFLEN: nat := 128

  /** The index after `i`: `(i + 1) % BUFLEN`. */
  function Next(i: nat): (j: nat)
    requires i < BUFLEN
    ensures j < BUFLEN && j == (i + 1) % BUFLEN
  {
    if i + 1 < BUFLEN then i + 1 else 0
  }

  /** How many steps of `Next` lead from `r` to `w`. */
  function Distance(r: nat, w: nat): (d: nat)
    requires r < BUFLEN && w < BUFLEN
    ensures d < BUFLEN && d == (w - r) % BUFLEN
  {
    if r <= w then w - r else BUFLEN - r + w
  }

  /** The characters stored in ring buffer `s` from index `r` up to, not
      including, index `w`, oldest first: reading walks the read index
      forward until it meets the write index. */
  function Ring(s: seq<byte>, r: nat, w: nat): (q: seq<byte>)
    requires |s| == BUFLEN && r < BUFLEN && w < BUFLEN
    ensures |q| == Distance(r, w)
    decreases Distance(r, w)
  {
    if r == w then [] else [s[r]] + Ring(s, Next(r), w)
  }

  /** The buffer holds at most `BUFLEN - 1` characters, it is full exactly
      when advancing the write index would reach the read index, and empty
      exactly when the indices are equal. */
  lemma RingCapacity(s: seq<byte>, r: nat, w: nat)
    requires |s| == BUFLEN && r < BUFLEN && w < BUFLEN
    ensures |Ring(s, r, w)| <= BUFLEN - 1
    ensures |Ring(s, r, w)| == BUFLEN - 1 <==> Next(w) == r
    ensures |Ring(s, r, w)| == 0 <==> w == r
  {
  }

  /** Storing `c` at the write index and advancing it appends `c`, when the
      buffer is not full. */
  lemma {:induction false} RingPush(s: seq<byte>, r: nat, w: nat, c: byte)
    requires |s| == BUFLEN && r < BUFLEN && w < BUFLEN
    requires Next(w) != r
    ensures Ring(s[w := c], r, Next(w)) == Ring(s, r, w) + [c]
    decreases Distance(r, w)
  {
    if r != w {
      RingPush(s, Next(r), w, c);
    }
  }

  class UartTx {
    /** `write_buf`. */
    var buf: array<byte>
    /** `write_buf_read_idx` and `write_buf_write_idx`. */
    var readIdx: nat
    var writeIdx: nat
    /** The characters written to the data register, in order. */
    var transmitted: seq<byte>
    /** Every character `uart_write_char` accepted, in order. */
    ghost var accepted: seq<byte>

    /** The indices stay inside the buffer, and every accepted character
        has been transmitted or is waiting in the buffer, in order. */
    ghost predicate Valid()
      reads this, buf
    {
      buf.Length == BUFLEN && readIdx < BUFLEN && writeIdx < BUFLEN &&
      accepted == transmitted + Ring(buf[..], readIdx, writeIdx)
    }

    /** The characters waiting in the buffer, oldest first. */
    function Pending(): seq<byte>
      reads this, buf
      requires buf.Length == BUFLEN && readIdx < BUFLEN && writeIdx < BUFLEN
    {
      Ring(buf[..], readIdx, writeIdx)
    }

    /** The static initial state: both indices 0, nothing sent. */
    constructor ()
      ensures Valid() && fresh(buf)
      ensures readIdx == 0 && writeIdx == 0 && transmitted == [] && accepted == []
      ensures Pending() == []
    {
      buf := new byte[BUFLEN](i => 0);
      readIdx, writeIdx := 0, 0;
      transmitted, accepted := [], [];
    }

    /** `uart_write_char(c)` with data-register-empty flag `dre`: send at
        once when the buffer is empty and the register free, discard when
        the buffer is full, and queue otherwise. The result is 1 unless the
        character was discarded. */
    method WriteChar(c: byte, dre: bool) returns (r: byte)
      requires Valid()
      modifies this, buf
      ensures Valid()
      ensures old(writeIdx == readIdx) && dre ==>
        r == 1 && transmitted == old(transmitted) + [c] && accepted == old(accepted) + [c] &&
        readIdx == old(readIdx) && writeIdx == old(writeIdx) && buf[..] == old(buf[..])
      ensures !(old(writeIdx == readIdx) && dre) && old(Next(writeIdx) == readIdx) ==>
        r == 0 && transmitted == old(transmitted) && accepted == old(accepted) &&
        readIdx == old(readIdx) && writeIdx == old(writeIdx) && buf[..] == old(buf[..])
      ensures !(old(writeIdx == readIdx) && dre) && old(Next(writeIdx) != readIdx) ==>
        r == 1 && buf[..] == old(buf[..])[old(writeIdx) := c] &&
        writeIdx == Next(old(writeIdx)) && readIdx == old(readIdx) &&
        transmitted == old(transmitted) && accepted == old(accepted) + [c] &&
        Pending() == old(Pending()) + [c]
      ensures r == 1 <==> accepted == old(accepted) + [c]
      ensures r == 0 <==> accepted == old(accepted)
      ensures transmitted != old(transmitted) ==> old(Pending()) == []
      ensures buf == old(buf)
    {
      if writeIdx == readIdx && dre {
        // Transmit immediately
        transmitted := transmitted + [c];
        accepted := accepted + [c];
        return 1;
      } else if Next(writeIdx) == readIdx {
        // Discard char
        return 0;
      } else {
        ghost var q := Pending();
        RingPush(buf[..], readIdx, writeIdx, c);
        buf[writeIdx] := c;
        writeIdx := Next(writeIdx);
        assert Pending() == q + [c];
        accepted := accepted + [c];
        return 1;
      }
    }

    /** `sercom0_handler` with transmit-complete flag `txc`: send the
        oldest buffered character, or, when the buffer is empty, only
        acknowledge the interrupt (`acknowledged`). */
    method TxcHandler(txc: bool) returns (acknowledged: bool)
      requires Valid()
      modifies this
      ensures Valid()
      ensures accepted == old(accepted) && writeIdx == old(writeIdx) && buf == old(buf)
      ensures txc && old(writeIdx != readIdx) ==>
        !acknowledged && transmitted == old(transmitted) + [old(buf[readIdx])] &&
        readIdx == Next(old(readIdx)) && Pending() == old(Pending())[1..]
      ensures !(txc && old(writeIdx != readIdx)) ==>
        acknowledged == txc && transmitted == old(transmitted) && readIdx == old(readIdx)
    {
      acknowledged := false;
      if txc {
        if writeIdx != readIdx {
          transmitted := transmitted + [buf[readIdx]];
          readIdx := Next(readIdx);
        } else {
          acknowledged := true;
        }
      }
    }
  }
}
