/**
 * Byte-level building blocks of the TFMini-Plus serial protocol: bytes, the
 * 8-bit sum checksum, little-endian integers, the fixed-width sliding window
 * the driver shifts incoming bytes through, and the header search that the
 * window performs.
 */
module Bytes {

  type Byte = b: int | 0 <= b < 256

  datatype Option<T> = None | Some(value: T)

  function Min(a: nat, b: nat): nat { if a <= b then a else b }

  function Pow256(n: nat): (r: nat)
    ensures r >= 1
  {
    if n == 0 then 1 else 256 * Pow256(n - 1)
  }

  /** Python's `sum` over a byte sequence (added from the front, defined from the back). */
  function Sum(s: seq<Byte>): nat
  {
    if s == [] then 0 else Sum(s[..|s| - 1]) + s[|s| - 1]
  }

  /** `sum(s) & 0xFF`: the low 8 bits of the sum of the bytes. */
  function Checksum(s: seq<Byte>): Byte
  {
    Sum(s) % 256
  }

  /** Adding one byte to a packet adds it to the sum. */
  lemma SumAppend(s: seq<Byte>, b: Byte)
    ensures Sum(s + [b]) == Sum(s) + b
  {
    assert (s + [b])[..|s + [b]| - 1] == s;
  }

  /** Adding one byte to a packet adds that byte to its checksum, modulo 256. */
  lemma ChecksumAppend(s: seq<Byte>, b: Byte)
    ensures Checksum(s + [b]) == (Checksum(s) + b) % 256
  {
    SumAppend(s, b);
  }

  /** Python's `x.to_bytes(n, byteorder='little')` for an x that fits. */
  function ToLittleEndian(x: nat, n: nat): (r: seq<Byte>)
    requires x < Pow256(n)
    ensures |r| == n
  {
    if n == 0 then []
    else
      assert x / 256 < Pow256(n - 1);
      [x % 256] + ToLittleEndian(x / 256, n - 1)
  }

  /** `int.from_bytes(s, byteorder='little')`: the unsigned value of s. */
  function FromLittleEndian(s: seq<Byte>): (r: nat)
    ensures r < Pow256(|s|)
  {
    if s == [] then 0 else s[0] + 256 * FromLittleEndian(s[1..])
  }

  lemma {:induction false} LittleEndianRoundTrip(x: nat, n: nat)
    requires x < Pow256(n)
    ensures FromLittleEndian(ToLittleEndian(x, n)) == x
  {
    if n > 0 {
      assert x / 256 < Pow256(n - 1);
      LittleEndianRoundTrip(x / 256, n - 1);
      assert ToLittleEndian(x, n)[1..] == ToLittleEndian(x / 256, n - 1);
    }
  }

  /** The two bytes of a 16-bit value, low byte first. */
  lemma TwoBytes(x: nat)
    requires x < 0x1_0000
    ensures Pow256(2) == 0x1_0000
    ensures ToLittleEndian(x, 2) == [x % 256, x / 256]
  {
    assert ToLittleEndian(x / 256, 1) == [x / 256 % 256];
  }

  /** The three bytes of a 24-bit value, low byte first. */
  lemma ThreeBytes(x: nat)
    requires x < 0x100_0000
    ensures Pow256(3) == 0x100_0000
    ensures ToLittleEndian(x, 3) == [x % 256, x / 256 % 256, x / 0x1_0000]
  {
    Div65536(x);
    TwoBytes(x / 256);
    assert ToLittleEndian(x, 3) == [x % 256] + ToLittleEndian(x / 256, 2);
  }

  lemma Div65536(x: nat)
    ensures x / 256 / 256 == x / 0x1_0000
  {
    var q, r := x / 0x1_0000, x % 0x1_0000;
    assert x == 256 * (256 * q + r / 256) + r % 256;
    assert x / 256 == 256 * q + r / 256;
  }

  lemma {:induction false} LittleEndianInverse(s: seq<Byte>)
    ensures ToLittleEndian(FromLittleEndian(s), |s|) == s
  {
    if s != [] {
      var v := FromLittleEndian(s[1..]);
      assert (s[0] + 256 * v) % 256 == s[0];
      assert (s[0] + 256 * v) / 256 == v;
      LittleEndianInverse(s[1..]);
    }
  }

  function Zeros(n: nat): (z: seq<Byte>)
    ensures |z| == n
    ensures forall i :: 0 <= i < n ==> z[i] == 0
  {
    seq(n, i => 0)
  }

  /** One step of the sliding window: append b and drop the oldest byte. */
  function Shift(w: seq<Byte>, b: Byte): (w': seq<Byte>)
    ensures |w'| == |w|
  {
    (w + [b])[1..]
  }

  /**
   * The n-byte window that starts out all zeros and into which the bytes of
   * s have been shifted one at a time.
   */
  function Window(n: nat, s: seq<Byte>): (w: seq<Byte>)
    ensures |w| == n
    decreases |s|
  {
    if s == [] then Zeros(n) else Shift(Window(n, s[..|s| - 1]), s[|s| - 1])
  }

  /** Shifting byte b into the window is one more step. */
  lemma WindowShift(n: nat, s: seq<Byte>, b: Byte)
    ensures Window(n, s + [b]) == Shift(Window(n, s), b)
  {
    assert (s + [b])[..|s + [b]| - 1] == s;
  }

  /** Taking in the next byte of s is one more step of the window. */
  lemma WindowNext(n: nat, s: seq<Byte>, k: nat)
    requires k < |s|
    ensures Window(n, s[..k + 1]) == Shift(Window(n, s[..k]), s[k])
  {
    assert s[..k + 1] == s[..k] + [s[k]];
    WindowShift(n, s[..k], s[k]);
  }

  /** The window holds the last n bytes of n zeros followed by everything shifted in. */
  lemma {:induction false} WindowIsSuffix(n: nat, s: seq<Byte>)
    ensures Window(n, s) == (Zeros(n) + s)[|s|..]
    decreases |s|
  {
    if s != [] {
      var t, b := s[..|s| - 1], s[|s| - 1];
      WindowIsSuffix(n, t);
      assert s == t + [b];
      assert Zeros(n) + s == (Zeros(n) + t) + [b];
    }
  }

  /** A window that has taken in at least n bytes holds exactly the last n of them. */
  lemma WindowFull(n: nat, s: seq<Byte>)
    requires |s| >= n
    ensures Window(n, s) == s[|s| - n..]
  {
    WindowIsSuffix(n, s);
  }

  /** A window that has taken in fewer than n bytes still starts with a padding zero. */
  lemma WindowPadded(n: nat, s: seq<Byte>)
    requires |s| < n
    ensures Window(n, s)[0] == 0
  {
    WindowIsSuffix(n, s);
  }

  /** An n-byte packet of s starts at p with the two header bytes h0 h1. */
  predicate HeaderAt(s: seq<Byte>, p: nat, n: nat, h0: Byte, h1: Byte)
  {
    2 <= n && p + n <= |s| && s[p] == h0 && s[p + 1] == h1
  }

  /** No n-byte packet with header h0 h1 starts before position k - n of s. */
  predicate NoHeaderBefore(s: seq<Byte>, k: nat, n: nat, h0: Byte, h1: Byte)
  {
    forall q: nat :: q + n < k ==> !HeaderAt(s, q, n, h0, h1)
  }

  /** The first position at or after `from` where an n-byte packet with header h0 h1 starts. */
  function FindHeader(s: seq<Byte>, n: nat, h0: Byte, h1: Byte, from: nat): (r: Option<nat>)
    ensures r.Some? ==> from <= r.value && HeaderAt(s, r.value, n, h0, h1)
    ensures r.Some? ==> forall q :: from <= q < r.value ==> !HeaderAt(s, q, n, h0, h1)
    ensures r.None? ==> forall q :: from <= q ==> !HeaderAt(s, q, n, h0, h1)
    decreases |s| - from
  {
    if from + n > |s| then None
    else if HeaderAt(s, from, n, h0, h1) then Some(from)
    else FindHeader(s, n, h0, h1, from + 1)
  }

  /**
   * The window has taken in the first k bytes of s, and no header has shown
   * at its front before. If the window now starts with h0 h1 (h0 not the
   * padding zero), it holds the first n-byte packet of s starting with
   * h0 h1; otherwise no such packet ends within the first k bytes.
   */
  lemma {:induction false} WindowSync(s: seq<Byte>, k: nat, n: nat, h0: Byte, h1: Byte)
    requires 2 <= n && k <= |s| && h0 != 0
    requires NoHeaderBefore(s, k, n, h0, h1)
    ensures var w := Window(n, s[..k]);
      if w[0] == h0 && w[1] == h1 then
        k >= n && w == s[k - n..k] && FindHeader(s, n, h0, h1, 0) == Some(k - n)
      else
        NoHeaderBefore(s, k + 1, n, h0, h1) && (k == |s| ==> FindHeader(s, n, h0, h1, 0) == None)
  {
    var w := Window(n, s[..k]);
    if k < n {
      WindowPadded(n, s[..k]);
    } else {
      WindowFull(n, s[..k]);
      assert w == s[k - n..k];
      if w[0] == h0 && w[1] == h1 {
        assert HeaderAt(s, k - n, n, h0, h1);
      } else {
        assert !HeaderAt(s, k - n, n, h0, h1);
      }
    }
  }
}
