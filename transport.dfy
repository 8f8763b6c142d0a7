/**
 * The serial port that the driver owns, as far as the driver uses it. The
 * clock is not modelled: `rx` holds every byte that reaches the port before
 * the driver's current one-second deadline, so the deadline passes exactly
 * when the driver waits for a byte and `rx` is empty.
 */
module Transport {
  import opened Bytes

  class Serial {
    /** The bytes that reach the port before the deadline, oldest first. */
    var rx: seq<Byte>
    /** How many bytes at the front of `rx` are already in the input buffer. */
    var waiting: nat
    /** Every byte written to the port, in order. */
    var tx: seq<Byte>

    ghost predicate Valid()
      reads this
    {
      waiting <= |rx|
    }

    constructor (incoming: seq<Byte>, buffered: nat)
      requires buffered <= |incoming|
      ensures Valid() && rx == incoming && waiting == buffered && tx == []
    {
      rx, waiting, tx := incoming, buffered, [];
    }

    /** `inWaiting()`: how many bytes are buffered. */
    method InWaiting() returns (n: nat)
      requires Valid()
      ensures n == waiting && n <= |rx|
    {
      n := waiting;
    }

    /**
     * Polling `inWaiting()` until a byte is buffered or the deadline passes:
     * true exactly when another byte arrives in time.
     */
    method Available() returns (arrived: bool)
      ensures arrived == (rx != [])
    {
      arrived := rx != [];
    }

    /** `read()`: takes the oldest byte. */
    method Read() returns (b: Byte)
      requires Valid() && rx != []
      modifies this
      ensures Valid() && b == old(rx[0]) && rx == old(rx[1..])
      ensures waiting == if old(waiting) > 0 then old(waiting) - 1 else 0
      ensures tx == old(tx)
    {
      b := rx[0];
      rx := rx[1..];
      if waiting > 0 {
        waiting := waiting - 1;
      }
    }

    /** `reset_input_buffer()`: discards the buffered bytes, not those still to arrive. */
    method ResetInputBuffer()
      requires Valid()
      modifies this
      ensures Valid() && rx == old(rx[waiting..]) && waiting == 0 && tx == old(tx)
    {
      rx := rx[waiting..];
      waiting := 0;
    }

    /** `write(data)`: sends the bytes. */
    method Write(data: seq<Byte>)
      requires Valid()
      modifies this
      ensures Valid() && rx == old(rx) && waiting == old(waiting) && tx == old(tx) + data
    {
      tx := tx + data;
    }
  }
}
