/**
 The circular buffers of the JTAG UART driver: BUF_LEN slots, one producer index `inn`, one
 consumer index `out`, one slot always left free so that `inn == out` can only mean empty.
 */
module Ring {
  import opened Bytes

  const BUF_LEN: nat := 2048

  /** How many bytes lie between the consumer and the producer index. */
  function Count(out: nat, inn: nat): (n: nat)
    requires out < BUF_LEN && inn < BUF_LEN
    ensures n < BUF_LEN
    ensures n == 0 <==> inn == out
    ensures n == BUF_LEN - 1 <==> (inn + 1) % BUF_LEN == out
  {
    if out <= inn then inn - out else BUF_LEN - out + inn
  }

  class RingBuffer {
    const buf: array<byte>
    var inn: nat
    var out: nat
    ghost var contents: seq<byte>  // the bytes from `out` up to `inn`, oldest first

    ghost predicate Valid()
      reads this, buf
      ensures Valid() ==> buf.Length == BUF_LEN && inn < BUF_LEN && out < BUF_LEN
      ensures Valid() ==> |contents| == Count(out, inn)
    {
      && buf.Length == BUF_LEN && inn < BUF_LEN && out < BUF_LEN
      && |contents| == Count(out, inn)
      && forall k :: 0 <= k < |contents| ==> contents[k] == buf[(out + k) % BUF_LEN]
    }

    constructor ()
      ensures Valid() && fresh(buf) && contents == []
    {
      buf, inn, out, contents := new byte[BUF_LEN], 0, 0, [];
    }

    /** The producer stores one byte and advances. */
    method Push(b: byte)
      requires Valid() && (inn + 1) % BUF_LEN != out
      modifies this`inn, this`contents, buf
      ensures Valid() && contents == old(contents) + [b]
    {
      buf[inn] := b;
      inn, contents := (inn + 1) % BUF_LEN, contents + [b];
    }

    /** The consumer releases the `n` oldest slots, which end no later than the array does. */
    method Release(n: nat)
      requires Valid() && n <= |contents| && out + n <= BUF_LEN
      modifies this`out, this`contents
      ensures Valid() && contents == old(contents)[n..] && out == (old(out) + n) % BUF_LEN
    {
      out, contents := (out + n) % BUF_LEN, contents[n..];
    }

    /** The producer fills a slot that no published byte occupies; readers see no difference. */
    method Store(i: nat, b: byte)
      requires Valid() && inn <= i < BUF_LEN && i - inn < BUF_LEN - |contents|
      modifies buf
      ensures Valid() && buf[..] == old(buf[..])[i := b]
    {
      buf[i] := b;
    }

    /** The producer publishes the `n` bytes stored from `inn` on. */
    method Publish(n: nat)
      requires Valid() && n < BUF_LEN - |contents| && inn + n <= BUF_LEN
      modifies this`inn, this`contents
      ensures Valid() && contents == old(contents) + old(buf[inn..inn + n]) && inn == (old(inn) + n) % BUF_LEN
    {
      inn, contents := (inn + n) % BUF_LEN, contents + buf[inn..inn + n];
    }
  }
}
