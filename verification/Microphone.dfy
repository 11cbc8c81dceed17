/** The sixteen-sample queue between the microphone's interrupt routine and the recorder. */
module SampleQueue {
  import opened Bytes

  const QUEUE_SIZE: nat := 16

  datatype QueueStatus = QueueOk | QueueFull | QueueEmpty

  /** The slot `k` places after `p`, around the end of the array. */
  function Slot(p: nat, k: nat): (s: nat)
    requires p < QUEUE_SIZE && k <= QUEUE_SIZE
    ensures s < QUEUE_SIZE
  {
    if p + k < QUEUE_SIZE then p + k else p + k - QUEUE_SIZE
  }

  class Queue {
    const fifo: array<u32>
    var readPtr: nat
    var writePtr: nat
    var size: nat
    ghost var contents: seq<u32>  // oldest first

    /** The pointers stay apart by the size, which never exceeds the array. */
    ghost predicate Valid()
      reads this, fifo
    {
      && fifo.Length == QUEUE_SIZE && readPtr < QUEUE_SIZE && size == |contents| <= QUEUE_SIZE
      && writePtr == Slot(readPtr, size)
      && forall k :: 0 <= k < size ==> contents[k] == fifo[Slot(readPtr, k)]
    }

    /** queue_init(). */
    constructor ()
      ensures Valid() && fresh(fifo) && contents == []
    {
      fifo := new u32[QUEUE_SIZE];
      readPtr, writePtr, size, contents := 0, 0, 0, [];
      new;
      for n := 0 to QUEUE_SIZE
        invariant fifo.Length == QUEUE_SIZE && fresh(fifo) && readPtr == writePtr == size == 0 && contents == []
      {
        fifo[n] := 0;
      }
    }

    /** put_on_queue(): a sample that finds the queue full is dropped. */
    method Put(value: u32) returns (status: QueueStatus)
      requires Valid()
      modifies this`writePtr, this`size, this`contents, fifo
      ensures Valid()
      ensures if |old(contents)| < QUEUE_SIZE then status == QueueOk && contents == old(contents) + [value]
              else status == QueueFull && contents == old(contents)
    {
      if size < QUEUE_SIZE {
        fifo[writePtr] := value;
        writePtr := writePtr + 1;
        if writePtr == QUEUE_SIZE {
          writePtr := 0;
        }
        size, contents := size + 1, contents + [value];
        return QueueOk;
      }
      status := QueueFull;
    }

    /** pick_from_queue(). Its test for an overfull queue never fires. */
    method Pick(value0: u32) returns (status: QueueStatus, value: u32)
      requires Valid()
      modifies this`readPtr, this`size, this`contents
      ensures Valid() && status != QueueFull
      ensures if old(contents) == [] then status == QueueEmpty && value == value0 && contents == []
              else status == QueueOk && old(contents) == [value] + contents
    {
      value := value0;
      if size > 0 {
        if size > QUEUE_SIZE {
          assert false;
        }
        value := fifo[readPtr];
        readPtr := readPtr + 1;
        if readPtr == QUEUE_SIZE {
          readPtr := 0;
        }
        size, contents := size - 1, contents[1..];
        return QueueOk, value;
      }
      status := QueueEmpty;
    }
  }
}

/** The microphone driver: its interrupt routine and the reading of one sample. */
module Microphone {
  import opened Bytes
  import opened SampleQueue

  const SAMPLES_PER_IRQ: nat := 4
  const ERROR_SOUND: u16 := 0xFFFF
  const MAX_BAD_SOUNDS: nat := 16000

  /** What the hardware has ready: a sample, or a fault that makes the routine restart it. */
  datatype Arrival = Sample(value: u32) | Fault

  /** The queue after arrivals: samples are appended while there is room. */
  function Fed(contents: seq<u32>, arrivals: seq<Arrival>): (r: seq<u32>)
    ensures contents <= r && (|contents| <= QUEUE_SIZE ==> |r| <= QUEUE_SIZE)
  {
    if arrivals == [] then contents
    else
      var before := Fed(contents, arrivals[..|arrivals| - 1]);
      var last := arrivals[|arrivals| - 1];
      if last.Sample? && |before| < QUEUE_SIZE then before + [last.value] else before
  }

  /** Those that one run of the interrupt routine takes. */
  function FirstArrivals(arrivals: seq<Arrival>): (r: seq<Arrival>) {
    if |arrivals| < SAMPLES_PER_IRQ then arrivals else arrivals[..SAMPLES_PER_IRQ]
  }

  /** The queue after any number of runs of the interrupt routine. */
  function FedAll(contents: seq<u32>, runs: seq<seq<Arrival>>): (r: seq<u32>)
    ensures contents <= r && (|contents| <= QUEUE_SIZE ==> |r| <= QUEUE_SIZE)
  {
    if runs == [] then contents
    else Fed(FedAll(contents, runs[..|runs| - 1]), FirstArrivals(runs[|runs| - 1]))
  }

  /** value_reducer(): 24 bits down to 16, saturating on two of the eight bit patterns only. */
  function Reduce(h: u32): (r: u16) {
    var high := h / 0x10_0000 % 16;
    if high == 7 then 0x7FFF
    else if high == 8 then 0x8000
    else h / 16 % 0x1_0000
  }

  function Signed(x: nat, half: nat): (s: int) {
    if x < half then x else x - 2 * half
  }

  /** The reduction is division by sixteen exactly for samples of at most 20 significant bits. */
  lemma ReduceIsDivisionIff(h: u32)
    requires h < 0x100_0000
    ensures Signed(Reduce(h), 0x8000) == Signed(h, 0x80_0000) / 16 <==>
            -0x8_0000 <= Signed(h, 0x80_0000) < 0x8_0000
  {
    var high, low := h / 0x10_0000, h % 0x10_0000;
    assert h / 16 % 0x1_0000 == low / 16;
    assert h / 16 == high * 0x1_0000 + low / 16;
    if h >= 0x80_0000 {
      assert (h - 0x100_0000) / 16 == h / 16 - 0x10_0000;
    }
  }

  /**
   What becomes of every 24-bit sample: the largest and the smallest sixteenth of the range saturate, and of
   all others the sixteenth part is kept, cut to 16 bits.
   */
  lemma ReduceIs(h: u32)
    requires h < 0x100_0000
    ensures var s, r := Signed(h, 0x80_0000), Signed(Reduce(h), 0x8000);
            if s >= 0x70_0000 then r == 32767
            else if s < -0x70_0000 then r == -32768
            else (s / 16 - r) % 0x1_0000 == 0
  {
    var high, low := h / 0x10_0000, h % 0x10_0000;
    assert h == high * 0x10_0000 + low && h % 16 == low % 16;
    if h >= 0x80_0000 {
      assert (h - 0x100_0000) / 16 == h / 16 - 0x10_0000;
    }
  }

  datatype SampleStatus = Empty | Ready | MicError | Full

  class Mic {
    const queue: Queue
    var flag: bool
    var counter: nat

    ghost predicate Valid()
      reads this, queue, queue.fifo
    {
      queue.Valid() && counter < TWO_32
    }

    constructor ()
      ensures Valid() && fresh(queue) && fresh(queue.fifo) && queue.contents == [] && counter == 0
    {
      queue := new Queue();
      flag, counter := false, 0;
    }

    /** mic_isr(): at most four arrivals; the rest waits for the next interrupt. */
    method Irq(arrivals: seq<Arrival>)
      requires Valid()
      modifies this`flag, queue`writePtr, queue`size, queue`contents, queue.fifo
      ensures Valid()
      ensures queue.contents == Fed(old(queue.contents), FirstArrivals(arrivals))
    {
      for n := 0 to SAMPLES_PER_IRQ
        invariant Valid() && n <= |arrivals| && queue.contents == Fed(old(queue.contents), arrivals[..n])
      {
        if n == |arrivals| {
          assert arrivals[..n] == arrivals;
          return;
        }
        assert arrivals[..n + 1][..n] == arrivals[..n];
        if arrivals[n].Sample? {
          flag := true;
          var _ := queue.Put(arrivals[n].value);
        }
      }
    }

    /** Any number of runs of the interrupt routine. */
    method Irqs(runs: seq<seq<Arrival>>)
      requires Valid()
      modifies this`flag, queue`writePtr, queue`size, queue`contents, queue.fifo
      ensures Valid() && queue.contents == FedAll(old(queue.contents), runs)
    {
      for i := 0 to |runs|
        invariant Valid() && queue.contents == FedAll(old(queue.contents), runs[..i])
      {
        assert runs[..i + 1][..i] == runs[..i];
        Irq(runs[i]);
      }
      assert runs[..|runs|] == runs;
    }

    /** MIC_getSample(). The queue is read with the interrupt disabled; its status is never full. */
    method GetSample(sound0: u16) returns (status: SampleStatus, sound: u16)
      requires Valid()
      modifies this, queue`readPtr, queue`size, queue`contents
      ensures status != Full
      ensures old(queue.contents) == [] ==>
                status == Empty && sound == sound0 && queue.contents == [] && counter == old(counter)
      ensures old(queue.contents) != [] ==>
                && queue.contents == old(queue.contents)[1..] && sound == Reduce(old(queue.contents)[0])
                && counter == (if sound == ERROR_SOUND then (old(counter) + 1) % TWO_32 else 0)
                && status == if sound == ERROR_SOUND && counter >= MAX_BAD_SOUNDS then MicError else Ready
      ensures Valid()
    {
      flag := false;
      sound := sound0;
      var picked, h := queue.Pick(0);
      if picked == QueueEmpty {
        return Empty, sound;
      }
      sound := Reduce(h) % 0x1_0000;
      if sound == ERROR_SOUND {
        counter := (counter + 1) % TWO_32;
        if counter >= MAX_BAD_SOUNDS {
          return MicError, sound;
        }
      } else {
        counter := 0;
      }
      status := Ready;
    }
  }
}
