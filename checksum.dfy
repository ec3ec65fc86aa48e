/** The Internet checksum of RFC 1071, as used for the IPv4 header checksum
    (section 3.1 of RFC 791): the 16-bit one's complement of the one's-complement
    sum of the 16-bit words of the header. */
module Checksum {
  import opened Bytes
  import opened Memory

  // One's-complement addition on 16-bit words is addition modulo 0xFFFF = 2^16 - 1,
  // with 0xFFFF rather than 0 representing the nonzero multiples of 0xFFFF.

  /** One's-complement addition of two 16-bit words: add them and fold the
      carry out of bit 15 back into bit 0 (the "end-around carry"). */
  function OnesAdd(a: u16, b: u16): (r: u16)
    ensures r == 0 <==> a == 0 && b == 0
  {
    if a + b > 0xFFFF then a + b - 0xFFFF else a + b
  }

  /** The one's-complement sum of a sequence of words, accumulated in order. */
  function OnesSum(ws: seq<u16>): u16 {
    if ws == [] then 0 else OnesAdd(OnesSum(ws[..|ws| - 1]), ws[|ws| - 1])
  }

  /** The plain integer sum of a sequence of words. */
  function Total(ws: seq<u16>): nat {
    if ws == [] then 0 else Total(ws[..|ws| - 1]) + ws[|ws| - 1]
  }

  /** The one's-complement value a plain sum folds to: 0 only for the sum 0,
      otherwise the representative of the sum modulo 0xFFFF in [1, 0xFFFF]. */
  function Fold(t: nat): u16 {
    if t == 0 then 0 else (t - 1) % 0xFFFF + 1
  }

  /** The 16-bit words of a byte string read in network byte order. */
  function BeWords(h: seq<byte>): (ws: seq<u16>)
    requires |h| % 2 == 0
    ensures |ws| == |h| / 2
    ensures forall i :: 0 <= i < |ws| ==> ws[i] == Be16(h[2 * i], h[2 * i + 1])
  {
    seq(|h| / 2, i requires 0 <= i < |h| / 2 => Be16(h[2 * i], h[2 * i + 1]))
  }

  /** The 16-bit words of a byte string read as `uint16_t`s on the little-endian host. */
  function LeWords(h: seq<byte>): (ws: seq<u16>)
    requires |h| % 2 == 0
    ensures |ws| == |h| / 2
    ensures forall i :: 0 <= i < |ws| ==> ws[i] == Be16(h[2 * i + 1], h[2 * i])
  {
    seq(|h| / 2, i requires 0 <= i < |h| / 2 => Be16(h[2 * i + 1], h[2 * i]))
  }

  /** The RFC 1071 checksum of a byte string, as a word in network byte order. */
  function InternetChecksum(h: seq<byte>): u16
    requires |h| % 2 == 0
  {
    0xFFFF - OnesSum(BeWords(h))
  }

  /** What `rte_ipv4_cksum` returns on the little-endian host: the same algorithm
      run over the words as the host loads them, giving a host-order word. With
      its bytes swapped it is the network-order RFC 1071 checksum. */
  function HostChecksum(h: seq<byte>): (r: u16)
    requires |h| % 2 == 0
    ensures Swap16(r) == InternetChecksum(h)
  {
    WordsSwapped(h);
    SwapOnesSum(LeWords(h));
    Swap16Complement(OnesSum(LeWords(h)));
    0xFFFF - OnesSum(LeWords(h))
  }

  /** `h` with the 16-bit word at word index `k` set, in network order, to `v`. */
  function PutWord(h: seq<byte>, k: nat, v: u16): (r: seq<byte>)
    requires 2 * k + 1 < |h|
    ensures |r| == |h| && r[2 * k] == v / 0x100 && r[2 * k + 1] == v % 0x100
    ensures forall i :: 0 <= i < |h| && i != 2 * k && i != 2 * k + 1 ==> r[i] == h[i]
  {
    var r := Splice(h, 2 * k, BeBytes16(v));
    assert r[2 * k..2 * k + 2][0] == r[2 * k] && r[2 * k..2 * k + 2][1] == r[2 * k + 1];
    r
  }

  // ---------------------------------------------------------------------------
  // Arithmetic modulo 0xFFFF. Congruences are stated with an explicit
  // multiple of 0xFFFF: `x == y + 0xFFFF * k`.

  /** The remainder is the one of any division with a remainder in range. */
  lemma ModUnique(a: int, q: int, r: int)
    requires a == 0xFFFF * q + r && 0 <= r < 0xFFFF
    ensures a % 0xFFFF == r
  {
  }

  /** A positive sum differs from its fold by a multiple of 0xFFFF. */
  lemma FoldCong(t: nat) returns (k: int)
    requires t > 0
    ensures Fold(t) == t + 0xFFFF * k
  {
    k := -((t - 1) / 0xFFFF);
  }

  /** A value in [1, 0xFFFF] congruent to a positive sum is the fold of that sum. */
  lemma FoldUnique(r: int, t: nat, k: int)
    requires 1 <= r <= 0xFFFF && t > 0 && r == t + 0xFFFF * k
    ensures r == Fold(t)
  {
    var q := FoldCong(t);
    assert r - Fold(t) == 0xFFFF * (k - q);
  }

  /** Adding a word with end-around carry to the fold of a sum folds the
      extended sum. */
  lemma FoldAdd(t: nat, w: u16)
    ensures OnesAdd(Fold(t), w) == Fold(t + w)
  {
    if t == 0 {
      if w > 0 {
        ModUnique(w - 1, 0, w - 1);
      }
    } else {
      var q, s := (t - 1) / 0xFFFF, (t - 1) % 0xFFFF;
      assert t - 1 == 0xFFFF * q + s;
      if s + w < 0xFFFF {
        ModUnique(t + w - 1, q, s + w);
      } else {
        ModUnique(t + w - 1, q + 1, s + w - 0xFFFF);
      }
    }
  }

  /** Accumulating with end-around carry computes the fold of the plain sum. */
  lemma {:induction false} OnesSumIsFold(ws: seq<u16>)
    ensures OnesSum(ws) == Fold(Total(ws))
  {
    if ws != [] {
      var init, w := ws[..|ws| - 1], ws[|ws| - 1];
      OnesSumIsFold(init);
      FoldAdd(Total(init), w);
    }
  }

  // ---------------------------------------------------------------------------
  // Byte-order independence (RFC 1071 section 2(B))

  function SwapAll(ws: seq<u16>): (r: seq<u16>)
    ensures |r| == |ws| && forall i :: 0 <= i < |ws| ==> r[i] == Swap16(ws[i])
  {
    seq(|ws|, i requires 0 <= i < |ws| => Swap16(ws[i]))
  }

  /** Swapping the bytes of a word multiplies it by 2^8 modulo 0xFFFF. */
  lemma Swap16Cong(w: u16) returns (k: int)
    ensures Swap16(w) == 0x100 * w + 0xFFFF * k
  {
    var hi, lo := w / 0x100, w % 0x100;
    assert w == 0x100 * hi + lo;
    k := -hi;
  }

  /** Swapping every word multiplies the plain sum by 2^8 modulo 0xFFFF,
      and keeps it zero exactly when it was zero. */
  lemma {:induction false} TotalSwapAll(ws: seq<u16>) returns (k: int)
    ensures Total(SwapAll(ws)) == 0x100 * Total(ws) + 0xFFFF * k
    ensures Total(SwapAll(ws)) == 0 <==> Total(ws) == 0
  {
    if ws == [] {
      k := 0;
    } else {
      var n := |ws|;
      var init, w := ws[..n - 1], ws[n - 1];
      assert SwapAll(ws)[..n - 1] == SwapAll(init);
      assert Total(SwapAll(ws)) == Total(SwapAll(init)) + Swap16(w);
      var k1 := TotalSwapAll(init);
      var k2 := Swap16Cong(w);
      Swap16Zero(w);
      k := k1 + k2;
    }
  }

  /** Swapping the bytes of a fold is folding the swapped sum. */
  lemma SwapFold(t: nat, u: nat, k: int)
    requires u == 0x100 * t + 0xFFFF * k && (u == 0 <==> t == 0)
    ensures Swap16(Fold(t)) == Fold(u)
  {
    if t != 0 {
      var s := Fold(t);
      var q := FoldCong(t);
      var k2 := Swap16Cong(s);
      Swap16Zero(s);
      assert Swap16(s) == u + 0xFFFF * (0x100 * q + k2 - k);
      FoldUnique(Swap16(s), u, 0x100 * q + k2 - k);
    }
  }

  lemma SwapBe16(hi: byte, lo: byte)
    ensures Swap16(Be16(hi, lo)) == Be16(lo, hi)
  {
    var v := Be16(hi, lo);
    assert v / 0x100 == hi && v % 0x100 == lo;
  }

  /** Read as host-order words, a byte string gives its network-order words
      with their bytes swapped. */
  lemma WordsSwapped(h: seq<byte>)
    requires |h| % 2 == 0
    ensures BeWords(h) == SwapAll(LeWords(h))
  {
    var le, be := LeWords(h), BeWords(h);
    forall i | 0 <= i < |be| ensures be[i] == SwapAll(le)[i] {
      SwapBe16(h[2 * i + 1], h[2 * i]);
    }
  }

  /** RFC 1071 section 2(B): the one's-complement sum of the byte-swapped
      words is the byte-swapped sum. */
  lemma SwapOnesSum(ws: seq<u16>)
    ensures OnesSum(SwapAll(ws)) == Swap16(OnesSum(ws))
  {
    var k := TotalSwapAll(ws);
    OnesSumIsFold(ws);
    OnesSumIsFold(SwapAll(ws));
    SwapFold(Total(ws), Total(SwapAll(ws)), k);
  }

  /** The checksum the host computes over its own word order, stored in host
      order, puts on the wire exactly the bytes of the network-order RFC 1071
      checksum stored big-endian. */
  lemma HostChecksumWire(h: seq<byte>)
    requires |h| % 2 == 0
    ensures LeBytes16(HostChecksum(h)) == BeBytes16(InternetChecksum(h))
  {
    LeBytes16Swapped(HostChecksum(h));
  }

  // ---------------------------------------------------------------------------
  // A header carrying its checksum verifies

  /** The plain sum of a prefix grows by the next word. */
  lemma TotalPrefix(ws: seq<u16>, n: nat)
    requires n < |ws|
    ensures Total(ws[..n + 1]) == Total(ws[..n]) + ws[n]
  {
    assert ws[..n + 1][..n] == ws[..n];
  }

  /** Replacing one word changes the plain sum by the difference. */
  lemma {:induction false} TotalUpdate(ws: seq<u16>, k: nat, v: u16)
    requires k < |ws|
    ensures Total(ws[k := v]) == Total(ws) - ws[k] + v
  {
    var n := |ws|;
    if k == n - 1 {
      assert ws[k := v][..n - 1] == ws[..n - 1];
    } else {
      assert ws[k := v][..n - 1] == ws[..n - 1][k := v];
      TotalUpdate(ws[..n - 1], k, v);
    }
  }

  lemma PutWordWords(h: seq<byte>, k: nat, v: u16)
    requires |h| % 2 == 0 && 2 * k + 1 < |h|
    ensures BeWords(PutWord(h, k, v)) == BeWords(h)[k := v]
  {
    var h' := PutWord(h, k, v);
    assert h'[2 * k] == v / 0x100 && h'[2 * k + 1] == v % 0x100;
    assert Be16(h'[2 * k], h'[2 * k + 1]) == v;
    forall i | 0 <= i < |h| / 2 && i != k
      ensures BeWords(h')[i] == BeWords(h)[i]
    {
      assert h'[2 * i] == h[2 * i] && h'[2 * i + 1] == h[2 * i + 1];
    }
  }

  /** Adding the complement of a fold to the sum folds to all ones. */
  lemma FoldComplement(t: nat)
    ensures Fold(t + (0xFFFF - Fold(t))) == 0xFFFF
  {
    if t > 0 {
      var q := FoldCong(t);
      FoldUnique(0xFFFF, t + (0xFFFF - Fold(t)), q);
    } else {
      ModUnique(0xFFFF - 1, 0, 0xFFFF - 1);
    }
  }

  /** RFC 1071 section 1: the receiver sums the whole header, checksum word
      included; if the checksum word was the checksum computed with that word
      zeroed, the complement of the sum is 0. */
  lemma CompletedHeaderVerifies(h: seq<byte>, k: nat)
    requires |h| % 2 == 0 && 2 * k + 1 < |h|
    requires h[2 * k] == 0 && h[2 * k + 1] == 0
    ensures InternetChecksum(PutWord(h, k, InternetChecksum(h))) == 0
  {
    var c := InternetChecksum(h);
    var h' := PutWord(h, k, c);
    var ws, ws' := BeWords(h), BeWords(h');
    PutWordWords(h, k, c);
    assert ws[k] == 0;
    TotalUpdate(ws, k, c);
    OnesSumIsFold(ws);
    OnesSumIsFold(ws');
    var t := Total(ws);
    assert Total(ws') == t + c;
    FoldComplement(t);
  }
}
