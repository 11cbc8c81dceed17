/**
 The device side of the JTAG UART: two hardware FIFOs and a control register. The host acts on
 its own: before every register access it may send bytes and drain the transmit FIFO.
 */
module JtagUartDevice {
  import opened Bytes

  /** What a read of the control register shows. */
  datatype Control = Control(ri: bool, wi: bool, wspace: nat)

  /** What a read of the data register shows; `avail` counts the bytes still behind this one. */
  datatype Data = Data(valid: bool, avail: nat, value: byte)

  class Device {
    var rxFifo: seq<byte>
    var txSpace: nat
    var re: bool
    var we: bool
    // The device wants service. The thresholds and timeouts behind these are its own business.
    var rxReady: bool
    var txReady: bool
    // Host events (a byte sent, a byte drained) still to come before the host pauses: any number, but
    // finitely many in one run of the interrupt routine.
    var hostEvents: nat

    ghost var taken: seq<byte>  // every valid byte ever read from the data register
    ghost var sent: seq<byte>   // every byte ever written to the data register

    constructor ()
      ensures taken == [] && sent == []
    {
      rxFifo, txSpace, hostEvents := [], *, *;
      re, we, rxReady, txReady := *, *, *, *;
      taken, sent := [], [];
    }

    /** Strictly decreased by every useful step of the interrupt routine, never raised by the host. */
    ghost function Work(): nat
      reads this
    {
      2 * hostEvents + |rxFifo| + txSpace + (if re then 1 else 0) + (if we then 1 else 0)
    }

    /** The device asks for service only if there is some to give. */
    method HostActivity()
      modifies this`rxFifo, this`txSpace, this`hostEvents, this`rxReady, this`txReady
      ensures rxReady ==> rxFifo != []
      ensures txReady ==> 0 < txSpace
      ensures old(rxFifo) <= rxFifo && old(txSpace) <= txSpace
      ensures Work() <= old(Work())
    {
      var incoming: seq<byte> := *;
      var drained: nat := *;
      if 0 <= drained && |incoming| + drained <= hostEvents {
        rxFifo := rxFifo + incoming;
        txSpace := txSpace + drained;
        hostEvents := hostEvents - |incoming| - drained;
      }
      rxReady, txReady := *, *;
      rxReady, txReady := rxReady && rxFifo != [], txReady && 0 < txSpace;
    }

    method ReadControl() returns (c: Control)
      modifies this`rxFifo, this`txSpace, this`hostEvents, this`rxReady, this`txReady
      ensures c == Control(re && rxReady, we && txReady, txSpace)
      ensures rxReady ==> rxFifo != []
      ensures txReady ==> 0 < txSpace
      ensures old(rxFifo) <= rxFifo && old(txSpace) <= txSpace
      ensures Work() <= old(Work())
    {
      HostActivity();
      c := Control(re && rxReady, we && txReady, txSpace);
    }

    method ReadData() returns (d: Data)
      modifies this`rxFifo, this`txSpace, this`hostEvents, this`rxReady, this`txReady, this`taken
      ensures old(txSpace) <= txSpace
      ensures old(rxFifo) != [] ==> d.valid
      ensures old(taken + rxFifo) <= taken + rxFifo
      ensures taken == if d.valid then old(taken) + [d.value] else old(taken)
      ensures d.avail == |rxFifo| && (!d.valid ==> d.avail == 0)
      ensures Work() <= old(Work()) && (d.valid ==> Work() < old(Work()))
    {
      HostActivity();
      if rxFifo == [] {
        d := Data(false, 0, 0);
      } else {
        d := Data(true, |rxFifo| - 1, rxFifo[0]);
        rxFifo, taken := rxFifo[1..], taken + [d.value];
      }
    }

    /** Writing with no free slot would lose the byte, so callers must show there is one. */
    method WriteData(b: byte)
      requires 0 < txSpace
      modifies this`rxFifo, this`txSpace, this`hostEvents, this`rxReady, this`txReady, this`sent
      ensures old(rxFifo) <= rxFifo && old(txSpace) - 1 <= txSpace
      ensures sent == old(sent) + [b]
      ensures Work() < old(Work())
    {
      HostActivity();
      sent, txSpace := sent + [b], txSpace - 1;
    }

    method WriteControl(re: bool, we: bool)
      modifies this`re, this`we
      ensures this.re == re && this.we == we
    {
      this.re, this.we := re, we;
    }
  }
}

/**
 The interrupt-driven JTAG UART driver. `Interrupts` stands between any two accesses of `Read`,
 `Write` and `Close` to the shared state: there the interrupt routine may run any number of times.
 */
module JtagUart {
  import opened Bytes
  import opened Ring
  import opened JtagUartDevice

  /** The result of a call; `Waiting` is a call that has not returned within the polls followed. */
  datatype Outcome = Returned(count: nat) | WouldBlock | IoError | Waiting(moved: nat) {
    /** How many of the caller's bytes have gone through. */
    function Moved(): nat {
      match this
      case Returned(n) => n
      case Waiting(n) => n
      case _ => 0
    }
  }

  /** `s` is what remains of `t` after removing some bytes from its front. */
  predicate IsSuffix(s: seq<byte>, t: seq<byte>) {
    |s| <= |t| && t[|t| - |s|..] == s
  }

  class Driver {
    const device: Device
    const rx: RingBuffer
    const tx: RingBuffer
    const timeout: nat
    var irqRe: bool   // the RE bit of irq_enable
    var irqWe: bool   // the WE bit of irq_enable
    var hostInactive: nat

    ghost var delivered: seq<byte>  // every byte `Read` has taken out of the receive ring
    ghost var accepted: seq<byte>   // every byte `Write` has put into the transmit ring
    ghost var readPending: bool     // a reader has freed slots and has yet to re-enable RE
    ghost var writePending: bool    // a writer has published bytes and has yet to enable WE
    ghost var cuts: nat             // how often the main code has been cut
    ghost var timedOut: nat         // how often the host was timed out at a cut

    /**
     No byte is lost, duplicated or reordered in either direction, and no wakeup is lost: receive
     interrupts are off only while the ring is full or a reader is about to turn them on again.
     */
    ghost predicate Valid()
      reads this, device, rx, tx, rx.buf, tx.buf
    {
      && rx.Valid() && tx.Valid() && rx != tx && rx.buf != tx.buf
      && delivered + rx.contents == device.taken
      && device.sent + tx.contents == accepted
      && device.re == irqRe && device.we == irqWe
      && (!irqRe ==> readPending || |rx.contents| == BUF_LEN - 1)
      && (tx.contents != [] ==> irqWe || writePending)
    }

    constructor (device: Device, timeout: nat)
      requires device.taken == [] && device.sent == []
      modifies device
      ensures Valid() && this.device == device && fresh(rx) && fresh(tx) && fresh(rx.buf) && fresh(tx.buf)
      ensures irqRe && !irqWe && rx.contents == [] && tx.contents == []
      ensures delivered == [] && accepted == [] && !readPending && !writePending
    {
      this.device, this.timeout, hostInactive, cuts, timedOut := device, timeout, 0, 0, 0;
      rx := new RingBuffer();
      tx := new RingBuffer();
      irqRe, irqWe := true, false;
      delivered, accepted, readPending, writePending := [], [], false, false;
      new;
      device.WriteControl(irqRe, irqWe);
    }

    /** Reads the data register into a ring that is not full. */
    method TakeByte() returns (data: Data)
      requires Valid() && (rx.inn + 1) % BUF_LEN != rx.out
      modifies device`rxFifo, device`txSpace, device`hostEvents, device`rxReady, device`txReady, device`taken
      modifies rx`inn, rx`contents, rx.buf
      ensures Valid() && old(device.txSpace) <= device.txSpace
      ensures rx.contents == if data.valid then old(rx.contents) + [data.value] else old(rx.contents)
      ensures old(device.rxFifo) != [] ==> data.valid
      ensures old(device.taken + device.rxFifo) <= device.taken + device.rxFifo
      ensures data.avail == |device.rxFifo| && (!data.valid ==> data.avail == 0)
      ensures device.Work() <= old(device.Work()) && (data.valid ==> device.Work() < old(device.Work()))
    {
      data := device.ReadData();
      if data.valid {
        rx.Push(data.value);
      }
    }

    /** The receive half of the interrupt routine, entered with data in the device. */
    method ReceiveIrq()
      requires Valid() && irqRe && device.rxFifo != []
      modifies this`irqRe, device, rx`inn, rx`contents, rx.buf
      ensures Valid() && device.we == old(device.we)
      ensures old(rx.contents) <= rx.contents
      ensures device.sent == old(device.sent) && old(device.txSpace) <= device.txSpace
      ensures device.Work() < old(device.Work())
      ensures !irqRe ==> |rx.contents| == BUF_LEN - 1
      ensures |rx.contents| == BUF_LEN - 1 || old(device.taken + device.rxFifo) <= device.taken
    {
      hide RingBuffer.Valid, Count;
      var data := Data(true, 1, 0);
      while true
        invariant Valid() && irqRe && device.we == old(device.we)
        invariant old(rx.contents) <= rx.contents
        invariant device.sent == old(device.sent) && old(device.txSpace) <= device.txSpace
        invariant old(device.taken + device.rxFifo) <= device.taken + device.rxFifo
        invariant device.Work() <= old(device.Work())
        invariant device.Work() == old(device.Work()) ==> data.avail != 0 && device.rxFifo != []
        decreases device.Work()
      {
        var next := (rx.inn + 1) % BUF_LEN;
        if next == rx.out {
          break;
        }
        data := TakeByte();
        if !data.valid {
          break;
        }
      }
      if data.avail != 0 {
        irqRe := false;
        device.WriteControl(irqRe, irqWe);
        var _ := device.ReadControl();
      }
    }

    /** Moves the oldest queued byte to the device. */
    method SendOldest()
      requires Valid() && tx.out != tx.inn && 0 < device.txSpace
      modifies device`rxFifo, device`txSpace, device`hostEvents, device`rxReady, device`txReady, device`sent
      modifies tx`out, tx`contents
      ensures Valid() && old(device.txSpace) - 1 <= device.txSpace
      ensures tx.contents == old(tx.contents)[1..] && device.sent == old(device.sent) + [old(tx.contents[0])]
      ensures device.Work() < old(device.Work())
    {
      var oldest := tx.buf[tx.out];
      assert tx.contents == [oldest] + tx.contents[1..];
      device.WriteData(oldest);
      tx.Release(1);
      assert device.sent + tx.contents == old(device.sent) + ([oldest] + tx.contents);
    }

    /** The transmit half of the interrupt routine, entered with `wspace` slots seen free in the device. */
    method TransmitIrq(wspace: nat)
      requires Valid() && irqWe && 0 < wspace <= device.txSpace
      modifies this`irqWe, device, tx`out, tx`contents
      ensures Valid()
      ensures IsSuffix(tx.contents, old(tx.contents))
      ensures device.taken == old(device.taken)
      ensures device.Work() < old(device.Work())
      ensures !irqWe ==> tx.contents == []
    {
      hide RingBuffer.Valid, Count;
      var space := wspace;
      while space > 0 && tx.out != tx.inn
        invariant Valid() && irqWe && space <= device.txSpace && space <= wspace
        invariant IsSuffix(tx.contents, old(tx.contents))
        invariant device.taken == old(device.taken)
        invariant device.Work() <= old(device.Work())
        invariant device.Work() == old(device.Work()) ==> space == wspace
        decreases space
      {
        SendOldest();
        space := space - 1;
      }
      if space > 0 {
        irqWe := false;
        device.WriteControl(irqRe, irqWe);
        var _ := device.ReadControl();
      }
    }

    /** One turn of the interrupt routine: serves the requests that the control register showed. */
    method Serve(control: Control)
      requires Valid() && (control.ri || control.wi)
      requires control.ri ==> irqRe && device.rxFifo != []
      requires control.wi ==> irqWe && 0 < control.wspace <= device.txSpace
      modifies this`irqRe, this`irqWe, device, rx`inn, rx`contents, rx.buf, tx`out, tx`contents
      ensures Valid() && device.Work() < old(device.Work())
      ensures old(rx.contents) <= rx.contents && IsSuffix(tx.contents, old(tx.contents))
    {
      hide RingBuffer.Valid, Count;
      if control.ri {
        ReceiveIrq();
      }
      if control.wi {
        TransmitIrq(control.wspace);
      }
    }

    /**
     The interrupt routine: it ends, appends to the received bytes, removes queued ones from the front, and
     leaves no enabled request unserved.
     */
    method Irq()
      requires Valid()
      modifies this`irqRe, this`irqWe, device, rx`inn, rx`contents, rx.buf, tx`out, tx`contents
      ensures Valid()
      ensures old(rx.contents) <= rx.contents && IsSuffix(tx.contents, old(tx.contents))
      ensures !(device.re && device.rxReady) && !(device.we && device.txReady)
    {
      hide RingBuffer.Valid, Count;
      var control := device.ReadControl();
      while control.ri || control.wi
        invariant Valid()
        invariant old(rx.contents) <= rx.contents && IsSuffix(tx.contents, old(tx.contents))
        invariant control.ri == (device.re && device.rxReady) && control.wi == (device.we && device.txReady)
        invariant control.ri ==> irqRe && device.rxFifo != []
        invariant control.wi ==> irqWe && 0 < control.wspace <= device.txSpace
        decreases device.Work()
      {
        Serve(control);
        control := device.ReadControl();
      }
    }

    /** One run of the interrupt routine, after any host activity. */
    method RunIrq()
      requires Valid()
      modifies this`irqRe, this`irqWe, this`hostInactive
      modifies device, rx`inn, rx`contents, rx.buf, tx`out, tx`contents
      ensures Valid()
      ensures old(rx.contents) <= rx.contents && IsSuffix(tx.contents, old(tx.contents))
      ensures old(device.taken) <= device.taken && old(|device.sent|) <= |device.sent|
    {
      hide RingBuffer.Valid, Count;
      device.hostEvents := *;
      hostInactive := *;
      device.HostActivity();
      Irq();
    }

    lemma SuffixTwice(r: seq<byte>, s: seq<byte>, t: seq<byte>)
      requires IsSuffix(r, s) && IsSuffix(s, t)
      ensures IsSuffix(r, t)
    {
      assert s[|s| - |r|..] == t[|t| - |s|..][|s| - |r|..];
    }

    /**
     Any number of runs of the interrupt routine, with any host activity and any host timeout count. Only here
     the counters move: one for the cut, one if it leaves the host timed out.
     */
    method Interrupts()
      requires Valid()
      modifies this`irqRe, this`irqWe, this`hostInactive, this`cuts, this`timedOut
      modifies device, rx`inn, rx`contents, rx.buf, tx`out, tx`contents
      ensures Valid()
      ensures old(rx.contents) <= rx.contents && IsSuffix(tx.contents, old(tx.contents))
      ensures old(device.taken) <= device.taken && old(|device.sent|) <= |device.sent|
      ensures cuts == old(cuts) + 1 && timedOut == old(timedOut) + if hostInactive >= timeout then 1 else 0
    {
      hide Valid, IsSuffix;
      var runs: nat := *;
      ghost var queued := tx.contents;
      SuffixOfItself(queued);
      while runs > 0
        invariant Valid()
        invariant old(rx.contents) <= rx.contents && IsSuffix(tx.contents, queued)
        invariant old(device.taken) <= device.taken && old(|device.sent|) <= |device.sent|
        invariant cuts == old(cuts) && timedOut == old(timedOut)
      {
        ghost var before := tx.contents;
        RunIrq();
        SuffixTwice(tx.contents, before, queued);
        runs := runs - 1;
      }
      NoteCut();
    }

    ghost method NoteCut()
      requires Valid()
      modifies this`cuts, this`timedOut
      ensures Valid() && cuts == old(cuts) + 1
      ensures timedOut == old(timedOut) + if hostInactive >= timeout then 1 else 0
    {
      cuts, timedOut := cuts + 1, timedOut + if hostInactive >= timeout then 1 else 0;
    }

    lemma SuffixOfItself(s: seq<byte>)
      ensures IsSuffix(s, s)
    {
    }

    /** The reader fetches the `k`-th published byte: whatever the interrupt routine did before, it is still there. */
    method FetchByte(k: nat) returns (b: byte)
      requires Valid() && k < |rx.contents| && rx.out + k < BUF_LEN
      modifies this`irqRe, this`irqWe, this`hostInactive, this`cuts, this`timedOut
      modifies device, rx`inn, rx`contents, rx.buf, tx`out, tx`contents
      ensures Valid() && b == old(rx.contents[k])
      ensures old(rx.contents) <= rx.contents && old(device.taken) <= device.taken
      ensures old(cuts) <= cuts && old(timedOut) <= timedOut
    {
      Interrupts();
      b := rx.buf[rx.out + k];
    }

    /** The writer fills a slot it found free: whatever the interrupt routine did before, it is still free. */
    method StoreByte(i: nat, b: byte)
      requires Valid() && tx.inn <= i < BUF_LEN && i - tx.inn < BUF_LEN - |tx.contents|
      modifies this`irqRe, this`irqWe, this`hostInactive, this`cuts, this`timedOut, device, rx`inn, rx`contents, rx.buf
      modifies tx`out, tx`contents, tx.buf
      ensures Valid() && |tx.contents| <= old(|tx.contents|) && old(|device.sent|) <= |device.sent|
      ensures tx.buf[..] == old(tx.buf[..])[i := b]
      ensures old(cuts) <= cuts && old(timedOut) <= timedOut
    {
      Interrupts();
      tx.Store(i, b);
    }

    /** memcpy from the ring, with interrupts between any two bytes: the copy is of the oldest `n` bytes. */
    method CopyOut(buffer: array<byte>, ptr: nat, n: nat)
      requires Valid() && n <= |rx.contents| && rx.out + n <= BUF_LEN && ptr + n <= buffer.Length
      requires buffer != rx.buf && buffer != tx.buf
      modifies this`irqRe, this`irqWe, this`hostInactive, this`cuts, this`timedOut, device, rx`inn, rx`contents, rx.buf
      modifies tx`out, tx`contents, buffer
      ensures Valid() && old(rx.contents) <= rx.contents && old(device.taken) <= device.taken
      ensures buffer[ptr..ptr + n] == old(rx.contents[..n])
      ensures buffer[..ptr] == old(buffer[..ptr]) && buffer[ptr + n..] == old(buffer[ptr + n..])
      ensures old(cuts) <= cuts && old(timedOut) <= timedOut
    {
      hide RingBuffer.Valid, Count;
      for i := 0 to n
        invariant Valid() && old(rx.contents) <= rx.contents && old(device.taken) <= device.taken
        invariant buffer[ptr..ptr + i] == old(rx.contents[..n])[..i]
        invariant old(cuts) <= cuts && old(timedOut) <= timedOut
        invariant buffer[..ptr] == old(buffer[..ptr]) && buffer[ptr + i..] == old(buffer[ptr..])[i..]
      {
        var b := FetchByte(i);
        buffer[ptr + i] := b;
      }
    }

    /** memcpy into the ring, with interrupts between any two bytes. */
    method CopyIn(data: seq<byte>, ptr: nat, n: nat)
      requires Valid() && n < BUF_LEN - |tx.contents| && tx.inn + n <= BUF_LEN && ptr + n <= |data|
      modifies this`irqRe, this`irqWe, this`hostInactive, this`cuts, this`timedOut, device, rx`inn, rx`contents, rx.buf
      modifies tx`out, tx`contents, tx.buf
      ensures Valid() && |tx.contents| <= old(|tx.contents|) && old(|device.sent|) <= |device.sent|
      ensures tx.buf[tx.inn..tx.inn + n] == data[ptr..ptr + n]
      ensures old(cuts) <= cuts && old(timedOut) <= timedOut
    {
      hide RingBuffer.Valid, Count;
      for i := 0 to n
        invariant Valid() && |tx.contents| <= old(|tx.contents|) && old(|device.sent|) <= |device.sent|
        invariant old(cuts) <= cuts && old(timedOut) <= timedOut
        invariant tx.buf[tx.inn..tx.inn + i] == data[ptr..ptr + i]
      {
        ghost var done := tx.buf[tx.inn..tx.inn + i];
        StoreByte(tx.inn + i, data[ptr + i]);
        assert tx.buf[tx.inn..tx.inn + i + 1] == done + [data[ptr + i]];
      }
    }

    /** The reader publishes the new `out`. */
    method PublishOut(n: nat)
      requires Valid() && n <= |rx.contents| && rx.out + n <= BUF_LEN
      modifies this`delivered, this`readPending, rx`out, rx`contents
      ensures Valid() && readPending && delivered == old(delivered + rx.contents[..n])
    {
      delivered, readPending := delivered + rx.contents[..n], true;
      rx.Release(n);
    }

    /** The writer publishes the new `in`. */
    method PublishIn(n: nat)
      requires Valid() && n < BUF_LEN - |tx.contents| && tx.inn + n <= BUF_LEN
      modifies this`accepted, this`writePending, tx`inn, tx`contents
      ensures Valid() && writePending && accepted == old(accepted + tx.buf[tx.inn..tx.inn + n])
    {
      hide RingBuffer.Valid, Count;
      accepted, writePending := accepted + tx.buf[tx.inn..tx.inn + n], true;
      tx.Publish(n);
    }

    /** The reader samples both indices: the length of the contiguous run of bytes that start at `out`. */
    method SampleUsed() returns (n: nat, inn: nat)
      requires Valid()
      modifies this`irqRe, this`irqWe, this`hostInactive, this`cuts, this`timedOut
      modifies device, rx`inn, rx`contents, rx.buf, tx`out, tx`contents
      ensures Valid() && n <= |rx.contents| && rx.out + n <= BUF_LEN && old(device.taken) <= device.taken
      ensures n == 0 ==> inn == rx.out && old(rx.contents) == []
      ensures old(cuts) <= cuts && old(timedOut) <= timedOut
    {
      inn := rx.inn;
      Interrupts();
      var out := rx.out;
      n := if inn >= out then inn - out else BUF_LEN - out;
    }

    /** The writer samples both indices: the length of a contiguous free run that starts at `in`; `out` may be stale. */
    method SampleFree() returns (n: nat, out: nat)
      requires Valid()
      modifies this`irqRe, this`irqWe, this`hostInactive, this`cuts, this`timedOut
      modifies device, rx`inn, rx`contents, rx.buf, tx`out, tx`contents
      ensures Valid() && n < BUF_LEN - |tx.contents| && tx.inn + n <= BUF_LEN && old(|device.sent|) <= |device.sent|
      ensures n == 0 ==> old(|tx.contents|) == BUF_LEN - 1 && out == (tx.inn + 1) % BUF_LEN
      ensures old(cuts) <= cuts && old(timedOut) <= timedOut
    {
      var inn := tx.inn;
      Interrupts();
      out := tx.out;
      if inn < out {
        n := out - 1 - inn;
      } else if out > 0 {
        n := BUF_LEN - inn;
      } else {
        n := BUF_LEN - 1 - inn;
      }
      Interrupts();
    }

    /** One pass of the reader's inner loop: sample both indices, copy one contiguous run, publish the new `out`. */
    method ReadRun(buffer: array<byte>, ptr: nat, space: nat) returns (n: nat, inn: nat)
      requires Valid() && 0 < space && ptr + space <= buffer.Length
      requires buffer != rx.buf && buffer != tx.buf
      modifies this`irqRe, this`irqWe, this`hostInactive, this`cuts, this`timedOut, this`delivered, this`readPending
      modifies device, rx, rx.buf, tx`out, tx`contents, buffer
      ensures Valid() && n <= space
      ensures delivered == old(delivered) + buffer[ptr..ptr + n]
      ensures buffer[..ptr] == old(buffer[..ptr]) && buffer[ptr + n..] == old(buffer[ptr + n..])
      ensures if n > 0 then readPending else readPending == old(readPending) && inn == rx.out
      ensures old(device.taken) <= device.taken && (n == 0 ==> old(device.taken) <= delivered)
      ensures old(cuts) <= cuts && old(timedOut) <= timedOut
    {
      hide Valid, Count;
      Interrupts();
      AllDelivered();
      n, inn := SampleUsed();
      if n == 0 {
        return;
      }
      if n > space {
        n := space;
      }
      ghost var run := rx.contents[..n];
      CopyOut(buffer, ptr, n);
      Interrupts();
      assert rx.contents[..n] == run;
      PublishOut(n);
      assert buffer[ptr..ptr + n] == run;
    }

    /** With an empty ring, all that was taken is delivered. */
    lemma AllDelivered()
      requires Valid()
      ensures rx.contents == [] ==> delivered == device.taken
    {
    }

    /** What was accepted is what was sent and what is still queued. */
    lemma AcceptedCount()
      requires Valid()
      ensures |accepted| == |device.sent| + |tx.contents| && |tx.contents| < BUF_LEN
    {
    }

    /** One pass of the writer's inner loop: sample both indices, fill one contiguous run, publish the new `in`. */
    method WriteRun(data: seq<byte>, ptr: nat, count: nat) returns (n: nat, out: nat)
      requires Valid() && 0 < count && ptr + count <= |data|
      modifies this`irqRe, this`irqWe, this`hostInactive, this`cuts, this`timedOut, this`accepted, this`writePending
      modifies device, rx`inn, rx`contents, rx.buf, tx, tx.buf
      ensures Valid() && n <= count
      ensures accepted == old(accepted) + data[ptr..ptr + n]
      ensures if n > 0 then writePending else writePending == old(writePending)
      ensures old(|device.sent|) <= |device.sent|
      ensures n == 0 ==> |accepted| == old(|device.sent|) + BUF_LEN - 1 && out == (tx.inn + 1) % BUF_LEN
      ensures old(cuts) <= cuts && old(timedOut) <= timedOut
    {
      hide Valid, Count;
      AcceptedCount();
      Interrupts();
      AcceptedCount();
      n, out := SampleFree();
      if n == 0 {
        return;
      }
      if n > count {
        n := count;
      }
      CopyIn(data, ptr, n);
      Interrupts();
      PublishIn(n);
    }

    /** The inner loop of the reader: until the space is used up or all is delivered that had arrived before. */
    method ReadAvailable(buffer: array<byte>, space: nat) returns (n: nat, inn: nat)
      requires Valid() && !readPending && 0 < space <= buffer.Length
      requires buffer != rx.buf && buffer != tx.buf
      modifies this`irqRe, this`irqWe, this`hostInactive, this`cuts, this`timedOut, this`delivered, this`readPending
      modifies device, rx, rx.buf, tx`out, tx`contents, buffer
      ensures Valid() && n <= space
      ensures delivered == old(delivered) + buffer[..n] && buffer[n..] == old(buffer[n..])
      ensures if n > 0 then readPending else !readPending && inn == rx.out
      ensures old(device.taken) <= device.taken && (n < space ==> old(device.taken) <= delivered)
      ensures old(cuts) <= cuts && old(timedOut) <= timedOut
    {
      hide RingBuffer.Valid, Count;
      n, inn := 0, 0;
      while n < space
        invariant Valid() && n <= space
        invariant delivered == old(delivered) + buffer[..n] && buffer[n..] == old(buffer[n..])
        invariant old(cuts) <= cuts && old(timedOut) <= timedOut
        invariant readPending == (n > 0) && old(device.taken) <= device.taken
      {
        var run;
        ghost var was := buffer[..];
        run, inn := ReadRun(buffer, n, space - n);
        if run == 0 {
          break;
        }
        Extended(was, buffer[..], n, run);
        n := n + run;
      }
    }

    /** A buffer in which only a run behind the first `n` bytes has changed. */
    lemma Extended(was: seq<byte>, now: seq<byte>, n: nat, run: nat)
      requires |was| == |now| && n + run <= |now| && now[..n] == was[..n] && now[n + run..] == was[n + run..]
      ensures now[..n + run] == was[..n] + now[n..n + run]
      ensures was[n..][run..] == now[n + run..]
    {
      assert now[..n + run] == now[..n] + now[n..n + run];
    }

    /**
     Spins until a byte is seen to have arrived or the host is seen to be timed out; `stuck` is a call that
     has used up its polls before. The routine may run between the two reads of a poll.
     */
    method AwaitReceive(inn: nat, polls: nat) returns (stuck: bool, left: nat)
      requires Valid()
      modifies this`irqRe, this`irqWe, this`hostInactive, this`cuts, this`timedOut
      modifies device, rx`inn, rx`contents, rx.buf, tx`out, tx`contents
      ensures Valid() && old(|device.sent|) <= |device.sent| && old(timedOut) <= timedOut
      ensures left <= polls && cuts + left >= old(cuts) + polls && (stuck ==> left == 0)
      ensures !stuck ==> inn != rx.inn || (hostInactive >= timeout && timedOut > old(timedOut))
    {
      hide RingBuffer.Valid, Count;
      left := polls;
      while true
        invariant Valid() && old(|device.sent|) <= |device.sent| && old(timedOut) <= timedOut
        invariant left <= polls && cuts + left >= old(cuts) + polls
        decreases left
      {
        Interrupts();
        if inn != rx.inn {
          return false, left;
        }
        Interrupts();
        if hostInactive >= timeout {
          return false, left;
        }
        if left == 0 {
          return true, left;
        }
        left := left - 1;
      }
    }

    /** Spins until a byte is seen to have left the ring or the host is seen to be timed out, in the same way. */
    method AwaitTransmit(out: nat, polls: nat) returns (stuck: bool, left: nat)
      requires Valid()
      modifies this`irqRe, this`irqWe, this`hostInactive, this`cuts, this`timedOut
      modifies device, rx`inn, rx`contents, rx.buf, tx`out, tx`contents
      ensures Valid() && old(|device.sent|) <= |device.sent| && old(timedOut) <= timedOut
      ensures left <= polls && cuts + left >= old(cuts) + polls && (stuck ==> left == 0)
      ensures !stuck ==> out != tx.out || (hostInactive >= timeout && timedOut > old(timedOut))
    {
      hide RingBuffer.Valid, Count;
      left := polls;
      while true
        invariant Valid() && old(|device.sent|) <= |device.sent| && old(timedOut) <= timedOut
        invariant left <= polls && cuts + left >= old(cuts) + polls
        decreases left
      {
        Interrupts();
        if out != tx.out {
          return false, left;
        }
        Interrupts();
        if hostInactive >= timeout {
          return false, left;
        }
        if left == 0 {
          return true, left;
        }
        left := left - 1;
      }
    }

    /**
     The read call. Whatever the interrupt routine does meanwhile, the caller gets the next bytes of the
     stream, in order, and an error means that none were taken. A short count means that all bytes that
     had arrived before the call are delivered. A blocking call fails only after it has seen the host timed
     out, with nothing to deliver, and is left waiting only after all the polls followed.
     */
    method Read(buffer: array<byte>, space: int, nonblock: bool, polls: nat) returns (outcome: Outcome)
      requires Valid() && !readPending && space <= buffer.Length
      requires buffer != rx.buf && buffer != tx.buf
      modifies this`irqRe, this`irqWe, this`hostInactive, this`cuts, this`timedOut, this`delivered, this`readPending
      modifies device, rx, rx.buf, tx`out, tx`contents, buffer
      ensures Valid() && !readPending
      ensures outcome.Moved() <= buffer.Length && delivered == old(delivered) + buffer[..outcome.Moved()]
      ensures buffer[outcome.Moved()..] == old(buffer[outcome.Moved()..])
      ensures outcome.Returned? ==> 0 < outcome.count <= space && irqRe
      ensures outcome.Returned? && outcome.count < space ==> old(device.taken) <= delivered
      ensures outcome.WouldBlock? ==> nonblock && (space > 0 ==> old(rx.contents) == [])
      ensures outcome.IoError? ==> !nonblock && (space > 0 ==> rx.contents == [] && timedOut > old(timedOut))
      ensures outcome.Waiting? ==> !nonblock && outcome.moved == 0 && space > 0 && old(rx.contents) == []
      ensures outcome.Waiting? ==> cuts >= old(cuts) + polls
    {
      hide RingBuffer.Valid, Count;
      var n: nat := 0;
      var budget: nat := polls;
      while space > 0
        invariant Valid() && !readPending && n == 0
        invariant delivered == old(delivered) && buffer[..] == old(buffer[..]) && old(device.taken) <= device.taken
        invariant old(timedOut) <= timedOut && cuts + budget >= old(cuts) + polls
        decreases budget
      {
        var inn;
        n, inn := ReadAvailable(buffer, space);
        if n > 0 || nonblock {
          break;
        }
        var stuck;
        stuck, budget := AwaitReceive(inn, budget);
        if stuck {
          return Waiting(0);
        }
        Interrupts();
        if inn == rx.inn {
          break;
        }
        if budget == 0 {
          return Waiting(0);
        }
        budget := budget - 1;
      }
      if n > 0 {
        Interrupts();
        EnableReceive();
        return Returned(n);
      }
      outcome := if nonblock then WouldBlock else IoError;
    }

    /** With interrupts off: the reader turns RE back on. */
    method EnableReceive()
      requires Valid()
      modifies this`irqRe, this`readPending, device`re, device`we
      ensures Valid() && irqRe && !readPending
    {
      irqRe, readPending := true, false;
      device.WriteControl(irqRe, irqWe);
    }

    /** With interrupts off: the writer turns WE on. */
    method EnableTransmit()
      requires Valid()
      modifies this`irqWe, this`writePending, device`re, device`we
      ensures Valid() && irqWe && !writePending
    {
      irqWe, writePending := true, false;
      device.WriteControl(irqRe, irqWe);
    }

    /** The writer's inner loop: runs until the ring is seen full or all bytes are in. */
    method WriteAvailable(data: seq<byte>, ptr: nat, count: nat) returns (n: nat, out: nat)
      requires Valid() && ptr + count <= |data|
      modifies this`irqRe, this`irqWe, this`hostInactive, this`cuts, this`timedOut, this`accepted, this`writePending
      modifies device, rx`inn, rx`contents, rx.buf, tx, tx.buf
      ensures Valid() && n <= count
      ensures accepted == old(accepted) + data[ptr..ptr + n] && old(|device.sent|) <= |device.sent|
      ensures n < count ==> |accepted| >= old(|device.sent|) + BUF_LEN - 1 && out == (tx.inn + 1) % BUF_LEN
      ensures old(cuts) <= cuts && old(timedOut) <= timedOut
    {
      hide RingBuffer.Valid, Count;
      n, out := 0, 0;
      while n < count
        invariant Valid() && n <= count
        invariant old(cuts) <= cuts && old(timedOut) <= timedOut
        invariant accepted == old(accepted) + data[ptr..ptr + n] && old(|device.sent|) <= |device.sent|
      {
        var run;
        run, out := WriteRun(data, ptr + n, count - n);
        if run == 0 {
          break;
        }
        n := n + run;
      }
    }

    /** Fills the ring as far as it goes and then kicks the interrupt routine. */
    method WriteRound(data: seq<byte>, ptr: nat, count: nat) returns (n: nat, out: nat)
      requires Valid() && ptr + count <= |data|
      modifies this`irqRe, this`irqWe, this`hostInactive, this`cuts, this`timedOut, this`accepted, this`writePending
      modifies device, rx`inn, rx`contents, rx.buf, tx, tx.buf
      ensures Valid() && !writePending && n <= count
      ensures accepted == old(accepted) + data[ptr..ptr + n] && old(|device.sent|) <= |device.sent|
      ensures n < count ==> |accepted| >= old(|device.sent|) + BUF_LEN - 1 && out == (tx.inn + 1) % BUF_LEN
      ensures old(cuts) <= cuts && old(timedOut) <= timedOut
    {
      hide RingBuffer.Valid, Count;
      n, out := WriteAvailable(data, ptr, count);
      Interrupts();
      EnableTransmit();
      Interrupts();
    }

    /**
     The wait of a writer that has seen the ring full at `out`, and its look at the host afterwards: an
     inactive host is reported only after it was seen timed out, or with room in the ring.
     */
    method AwaitRoom(out: nat, polls: nat) returns (stuck: bool, left: nat, inactive: bool)
      requires Valid() && out == (tx.inn + 1) % BUF_LEN
      modifies this`irqRe, this`irqWe, this`hostInactive, this`cuts, this`timedOut
      modifies device, rx`inn, rx`contents, rx.buf, tx`out, tx`contents
      ensures Valid() && old(|device.sent|) <= |device.sent| && old(timedOut) <= timedOut
      ensures left <= polls && cuts + left >= old(cuts) + polls + (if stuck then 0 else 1) && (stuck ==> left == 0)
      ensures inactive ==> !stuck && hostInactive > 0 && (timedOut > old(timedOut) || |tx.contents| < BUF_LEN - 1)
    {
      hide RingBuffer.Valid, Count;
      stuck, left := AwaitTransmit(out, polls);
      inactive := false;
      if !stuck {
        Interrupts();
        inactive := hostInactive > 0;
      }
    }

    /**
     The write call. Exactly the first `Moved` bytes enter the stream, in order; a short count means that
     the ring was full. A blocking call comes back with one only if the host is inactive, and only after it
     has seen the host timed out or room in the ring; it is left waiting only after all the polls followed.
     */
    method Write(data: seq<byte>, count: int, nonblock: bool, polls: nat) returns (outcome: Outcome)
      requires Valid() && !writePending && count <= |data|
      modifies this`irqRe, this`irqWe, this`hostInactive, this`cuts, this`timedOut, this`accepted, this`writePending
      modifies device, rx`inn, rx`contents, rx.buf, tx, tx.buf
      ensures Valid() && !writePending
      ensures outcome.Moved() <= |data| && accepted == old(accepted) + data[..outcome.Moved()]
      ensures outcome.Returned? ==> 0 < outcome.count <= count
      ensures tx.contents != [] ==> irqWe
      ensures outcome.Moved() < count ==> |accepted| >= old(|device.sent|) + BUF_LEN - 1
      ensures outcome.Returned? && outcome.count < count && !nonblock ==>
                hostInactive > 0 && (timedOut > old(timedOut) || |tx.contents| < BUF_LEN - 1)
      ensures outcome.WouldBlock? ==> nonblock
      ensures outcome.IoError? && count > 0 ==>
                !nonblock && hostInactive > 0 && (timedOut > old(timedOut) || |tx.contents| < BUF_LEN - 1)
      ensures outcome.IoError? ==> !nonblock
      ensures outcome.Waiting? ==> !nonblock && outcome.moved < count && cuts >= old(cuts) + polls
    {
      hide Valid, Count;
      var ptr: nat := 0;
      var budget: nat := polls;
      while true
        invariant Valid() && !writePending && ptr <= |data| && (ptr < count || ptr == 0)
        invariant accepted == old(accepted) + data[..ptr]
        invariant old(|device.sent|) <= |device.sent| && (nonblock ==> ptr == 0)
        invariant old(timedOut) <= timedOut && cuts + budget >= old(cuts) + polls
        decreases budget
      {
        var n, out := WriteRound(data, ptr, if count > ptr then count - ptr else 0);
        ptr := ptr + n;
        if ptr < count {
          if nonblock {
            break;
          }
          var stuck, inactive;
          stuck, budget, inactive := AwaitRoom(out, budget);
          if stuck {
            NoLostWakeup();
            return Waiting(ptr);
          }
          if inactive {
            break;
          }
        }
        if ptr >= count {
          break;
        }
        if budget == 0 {
          NoLostWakeup();
          return Waiting(ptr);
        }
        budget := budget - 1;
      }
      NoLostWakeup();
      if ptr != 0 {
        return Returned(ptr);
      }
      outcome := if nonblock then WouldBlock else IoError;
    }

    /**
     The close call: success means that every byte ever accepted has reached the device, or that the host is
     gone. Refusal means that some byte was still queued when the call looked; it may have left since.
     */
    method Close(nonblock: bool, polls: nat) returns (outcome: Outcome)
      requires Valid()
      modifies this`irqRe, this`irqWe, this`hostInactive, this`cuts, this`timedOut
      modifies device, rx`inn, rx`contents, rx.buf, tx`out, tx`contents
      ensures Valid() && outcome.Moved() == 0 && !outcome.IoError?
      ensures outcome.Returned? ==> device.sent == accepted || hostInactive >= timeout
      ensures outcome.WouldBlock? ==> nonblock && old(|device.sent|) < |accepted|
      ensures outcome.Waiting? ==> !nonblock && old(|device.sent|) < |accepted| && cuts >= old(cuts) + polls
    {
      hide RingBuffer.Valid, Count;
      var budget: nat := polls;
      while true
        invariant Valid() && old(|device.sent|) <= |device.sent| && cuts + budget >= old(cuts) + polls
        decreases budget
      {
        Interrupts();
        var out := tx.out;
        assert (tx.contents == []) == (out == tx.inn);
        Interrupts();
        if out == tx.inn {
          break;
        }
        Interrupts();
        if hostInactive >= timeout {
          break;
        }
        if nonblock {
          return WouldBlock;
        }
        if budget == 0 {
          return Waiting(0);
        }
        budget := budget - 1;
      }
      outcome := Returned(0);
    }

    /**
     No lost wakeup, in every state the driver is ever seen in: bytes the device holds back while RE is off
     are owed to a reader that finds data in the ring, and queued bytes have WE on or a writer about to.
     */
    lemma NoLostWakeup()
      requires Valid()
      ensures !irqRe ==> readPending || rx.contents != []
      ensures tx.contents != [] ==> irqWe || writePending
    {
    }
  }
}
