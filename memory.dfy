/** The memory primitives the frame builder uses on a buffer's data region:
    host-order stores of 8- and 16-bit fields, `memcpy` and `memset`. Each is
    specified by `Splice`: the new contents are the old ones with one range
    overwritten. */
module Memory {
  import opened Bytes

  /** `s` with the bytes of `x` written from index `at` on. */
  function Splice(s: seq<byte>, at: nat, x: seq<byte>): (r: seq<byte>)
    requires at + |x| <= |s|
    ensures |r| == |s|
  {
    s[..at] + x + s[at + |x|..]
  }

  /** Inside the written range `Splice` holds the new bytes ... */
  lemma SpliceAt(s: seq<byte>, at: nat, x: seq<byte>, k: nat)
    requires at + |x| <= |s| && at <= k < at + |x|
    ensures Splice(s, at, x)[k] == x[k - at]
  {
    assert Splice(s, at, x)[k] == (s[..at] + x)[k];
  }

  /** ... and outside it the old ones. */
  lemma SpliceOutside(s: seq<byte>, at: nat, x: seq<byte>, k: nat)
    requires at + |x| <= |s| && 0 <= k < |s| && !(at <= k < at + |x|)
    ensures Splice(s, at, x)[k] == s[k]
  {
  }

  /** The written range reads back as `x`. */
  lemma SpliceRange(s: seq<byte>, at: nat, x: seq<byte>)
    requires at + |x| <= |s|
    ensures Splice(s, at, x)[at..at + |x|] == x
  {
    forall k | 0 <= k < |x| ensures Splice(s, at, x)[at..at + |x|][k] == x[k] {
      SpliceAt(s, at, x, at + k);
    }
  }

  /** Writing `x` and then `y` right after it writes `x + y`. */
  lemma SpliceJoin(s: seq<byte>, at: nat, x: seq<byte>, y: seq<byte>)
    requires at + |x| + |y| <= |s|
    ensures Splice(Splice(s, at, x), at + |x|, y) == Splice(s, at, x + y)
  {
    var l, r := Splice(Splice(s, at, x), at + |x|, y), Splice(s, at, x + y);
    forall k | 0 <= k < |s| ensures l[k] == r[k] {
      if at <= k < at + |x| {
        SpliceAt(s, at, x, k);
        SpliceAt(s, at, x + y, k);
      } else if at + |x| <= k < at + |x| + |y| {
        SpliceAt(Splice(s, at, x), at + |x|, y, k);
        SpliceAt(s, at, x + y, k);
      } else {
        SpliceOutside(Splice(s, at, x), at + |x|, y, k);
        SpliceOutside(s, at, x, k);
        SpliceOutside(s, at, x + y, k);
      }
    }
  }

  /** Writing `y` and then `x` right before it writes `x + y`. */
  lemma SpliceJoinBack(s: seq<byte>, at: nat, x: seq<byte>, y: seq<byte>)
    requires at + |x| + |y| <= |s|
    ensures Splice(Splice(s, at + |x|, y), at, x) == Splice(s, at, x + y)
  {
    var l, r := Splice(Splice(s, at + |x|, y), at, x), Splice(s, at, x + y);
    forall k | 0 <= k < |s| ensures l[k] == r[k] {
      if at <= k < at + |x| {
        SpliceAt(Splice(s, at + |x|, y), at, x, k);
        SpliceAt(s, at, x + y, k);
      } else if at + |x| <= k < at + |x| + |y| {
        SpliceOutside(Splice(s, at + |x|, y), at, x, k);
        SpliceAt(s, at + |x|, y, k);
        SpliceAt(s, at, x + y, k);
      } else {
        SpliceOutside(Splice(s, at + |x|, y), at, x, k);
        SpliceOutside(s, at + |x|, y, k);
        SpliceOutside(s, at, x + y, k);
      }
    }
  }

  /** Writing `y` inside a range just written with `x` amounts to writing `x`
      with that part replaced. */
  lemma SpliceInside(s: seq<byte>, at: nat, x: seq<byte>, off: nat, y: seq<byte>)
    requires at + |x| <= |s| && off + |y| <= |x|
    ensures Splice(Splice(s, at, x), at + off, y) == Splice(s, at, Splice(x, off, y))
  {
    var l, r := Splice(Splice(s, at, x), at + off, y), Splice(s, at, Splice(x, off, y));
    forall k | 0 <= k < |s| ensures l[k] == r[k] {
      if at + off <= k < at + off + |y| {
        SpliceAt(Splice(s, at, x), at + off, y, k);
        SpliceAt(s, at, Splice(x, off, y), k);
        SpliceAt(x, off, y, k - at);
      } else if at <= k < at + |x| {
        SpliceOutside(Splice(s, at, x), at + off, y, k);
        SpliceAt(s, at, x, k);
        SpliceAt(s, at, Splice(x, off, y), k);
        SpliceOutside(x, off, y, k - at);
      } else {
        SpliceOutside(Splice(s, at, x), at + off, y, k);
        SpliceOutside(s, at, x, k);
        SpliceOutside(s, at, Splice(x, off, y), k);
      }
    }
  }

  /** A store to a `uint8_t` field. */
  method Store8(data: array<byte>, at: nat, v: byte)
    requires at < data.Length
    modifies data
    ensures data[..] == Splice(old(data[..]), at, [v])
  {
    data[at] := v;
    assert data[..] == old(data[..])[..at] + [v] + old(data[..])[at + 1..];
  }

  /** A store to a `uint16_t` field: host (little-endian) byte order. */
  method Store16(data: array<byte>, at: nat, v: u16)
    requires at + 2 <= data.Length
    modifies data
    ensures data[..] == Splice(old(data[..]), at, LeBytes16(v))
  {
    data[at] := v % 0x100;
    data[at + 1] := v / 0x100;
    assert data[..] == old(data[..])[..at] + LeBytes16(v) + old(data[..])[at + 2..];
  }

  /** `memcpy(data + at, src, |src|)`. */
  method Memcpy(data: array<byte>, at: nat, src: seq<byte>)
    requires at + |src| <= data.Length
    modifies data
    ensures data[..] == Splice(old(data[..]), at, src)
  {
    forall k | at <= k < at + |src| {
      data[k] := src[k - at];
    }
    assert data[..] == old(data[..])[..at] + src + old(data[..])[at + |src|..];
  }

  /** `memset(data + at, value, n)`. */
  method Memset(data: array<byte>, at: nat, value: byte, n: nat)
    requires at + n <= data.Length
    modifies data
    ensures data[..] == Splice(old(data[..]), at, seq(n, _ => value))
  {
    forall k | at <= k < at + n {
      data[k] := value;
    }
    assert data[..] == old(data[..])[..at] + seq(n, _ => value) + old(data[..])[at + n..];
  }
}
