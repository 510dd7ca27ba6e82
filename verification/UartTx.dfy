/** Transmission through the ring: one task writes bytes, and the transmit-done interrupt of
    the UART may strike at any point outside the task's critical sections. */
module UartTx {
  import opened BitBytes
  import opened Sequences
  import opened RingBuf

  const TX_BUFFER_SIZE := 8

  class Uart {
    const ring: Ring
    const txdata: array<byte>
    var txOn: bool
    // The hardware's transmit job: `jobLen` bytes of txdata while `inFlight`.
    var inFlight: bool
    var jobLen: nat
    // Everything handed to transmit jobs, the bytes of the job in flight, everything written.
    ghost var jobs: seq<byte>
    ghost var flying: seq<byte>
    ghost var written: seq<byte>

    constructor (size: nat)
      requires size >= 2
      ensures Valid() && Idle() && jobs == [] && written == []
      ensures fresh(ring) && fresh(ring.data) && fresh(txdata)
    {
      ring := new Ring(size);
      txdata := new byte[TX_BUFFER_SIZE](_ => 0);
      txOn, inFlight, jobLen := false, false, 0;
      jobs, flying, written := [], [], [];
    }

    /** Nothing lost, duplicated or reordered; the transmit buffer still holds the job in
        flight; and the driver's flag agrees with the hardware. */
    ghost predicate Valid() reads this, ring, ring.data, txdata {
      && ring.Valid()
      && txdata.Length == TX_BUFFER_SIZE && txdata != ring.data
      && jobs + ring.Contents() == written
      && txOn == inFlight
      && (inFlight ==> 0 < jobLen <= TX_BUFFER_SIZE && txdata[..jobLen] == flying)
    }

    /** Between two writes: whatever waits in the ring has a transmission under way. */
    ghost predicate Idle() reads this, ring {
      ring.fill > 0 ==> txOn
    }

    /** fill_tx_buf, pulling through espduino_uart_tx. Only ever called with no job in flight. */
    method FillTxBuf() returns (n: nat)
      requires ring.Valid() && txdata.Length == TX_BUFFER_SIZE && txdata != ring.data && !inFlight
      modifies ring, txdata
      ensures ring.Valid() && n <= TX_BUFFER_SIZE
      ensures txdata[..n] + ring.Contents() == old(ring.Contents())
      ensures n == (if old(ring.fill) < TX_BUFFER_SIZE then old(ring.fill) else TX_BUFFER_SIZE)
      ensures ring.fill == old(ring.fill) - n
    {
      n := 0;
      while n < TX_BUFFER_SIZE
        invariant ring.Valid() && n <= TX_BUFFER_SIZE
        invariant txdata[..n] + ring.Contents() == old(ring.Contents())
        invariant ring.fill == old(ring.fill) - n
      {
        var ok, c := ring.Get();
        if !ok {
          break;
        }
        ghost var front := txdata[..n];
        Assoc(front, [c], ring.Contents());
        txdata[n] := c;
        assert txdata[..n + 1] == front + [c];
        n := n + 1;
      }
    }

    /** usart_write_buffer_job */
    method StartJob(n: nat)
      requires 0 < n <= TX_BUFFER_SIZE == txdata.Length && !inFlight
      modifies this
      ensures inFlight && jobLen == n && flying == txdata[..n]
      ensures jobs == old(jobs) + flying && written == old(written) && txOn == old(txOn)
    {
      inFlight, jobLen := true, n;
      flying := txdata[..n];
      jobs := jobs + flying;
    }

    /** The hardware finishes its job and usart_callback_txdone runs. */
    method TxDone()
      requires Valid() && inFlight
      modifies this, ring, txdata
      ensures Valid() && written == old(written)
      ensures var n := if old(ring.fill) < TX_BUFFER_SIZE then old(ring.fill) else TX_BUFFER_SIZE;
        && (inFlight <==> n > 0) && ring.fill == old(ring.fill) - n
        && jobs == old(jobs) + old(ring.Contents())[..n]
    {
      inFlight := false;
      var n := FillTxBuf();
      Assoc(jobs, txdata[..n], ring.Contents());
      if n > 0 {
        txOn := true;
        StartJob(n);
      } else {
        txOn := false;
      }
    }

    /** A point where the interrupt may strike, any number of times. */
    method Preemptible()
      requires Valid()
      modifies this, ring, txdata
      ensures Valid() && written == old(written) && ring.fill <= old(ring.fill)
      ensures old(Idle()) ==> Idle()
      ensures old(jobs) <= jobs
      ensures !old(inFlight) ==> !inFlight && ring.fill == old(ring.fill)
    {
      var strikes: nat :| true;
      for i := 0 to strikes
        invariant Valid() && written == old(written) && ring.fill <= old(ring.fill)
        invariant old(Idle()) ==> Idle()
        invariant old(jobs) <= jobs
        invariant !old(inFlight) ==> !inFlight && ring.fill == old(ring.fill)
      {
        if inFlight {
          TxDone();
        }
      }
    }

    /** hal_uart_start_tx on an open port. */
    method StartTx()
      requires Valid()
      modifies this, ring, txdata
      ensures Valid() && Idle() && written == old(written)
      ensures old(jobs) <= jobs
    {
      Preemptible();
      if txOn {
        Preemptible();
        return;
      }
      Preemptible();
      var n := FillTxBuf();
      Assoc(jobs, txdata[..n], ring.Contents());
      if n > 0 {
        txOn := true;
        StartJob(n);
        Preemptible();
      }
    }

    /** The task sleeps for a tick: long enough for a job in flight to finish, and maybe more. */
    method Delay()
      requires Valid() && Idle()
      modifies this, ring, txdata
      ensures Valid() && Idle() && written == old(written)
      ensures old(ring.fill) > 0 ==> ring.fill < old(ring.fill)
      ensures old(jobs) <= jobs
    {
      if inFlight {
        TxDone();
      }
      Preemptible();
    }

    /** esp_uart_write. It returns: a full ring always has a job in flight that frees a slot. */
    method Write(c: byte)
      requires Valid() && Idle()
      modifies this, ring, ring.data, txdata
      ensures Valid() && Idle() && written == old(written) + [c]
      ensures old(jobs) <= jobs
    {
      Preemptible();
      var ok := ring.Put(c);
      while !ok
        invariant if ok then
            && ring.Valid() && txdata.Length == TX_BUFFER_SIZE && txdata != ring.data
            && jobs + ring.Contents() == written + [c]
            && txOn == inFlight
            && (inFlight ==> 0 < jobLen <= TX_BUFFER_SIZE && txdata[..jobLen] == flying)
          else Valid() && Idle() && ring.fill == ring.data.Length
        invariant written == old(written) && old(jobs) <= jobs
        decreases if ok then 0 else 1
      {
        Delay();
        ok := ring.Put(c);
      }
      written := written + [c];
      StartTx();
    }

    /** Any interleaving of writes and finished jobs. */
    method Run(ops: seq<Op>)
      requires Valid() && Idle()
      modifies this, ring, ring.data, txdata
      ensures Valid() && Idle()
      ensures written == old(written) + Written(ops)
    {
      for i := 0 to |ops|
        invariant Valid() && Idle()
        invariant written + Written(ops[i..]) == old(written) + Written(ops)
      {
        assert ops[i..][1..] == ops[i + 1..];
        match ops[i] {
          case Send(c) => Write(c);
          case Wait => Preemptible();
        }
      }
    }
  }

  datatype Op = Send(c: byte) | Wait

  function Written(ops: seq<Op>): seq<byte> {
    if ops == [] then []
    else (if ops[0].Send? then [ops[0].c] else []) + Written(ops[1..])
  }
}
