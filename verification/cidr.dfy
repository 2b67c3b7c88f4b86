/**
 * The CIDR calculator (CIDR.py): an IPv4 address with a prefix length or a
 * dotted netmask, in the address/prefix notation of section 3.1 of RFC 4632.
 * Python integers are unbounded, so every quantity here is an `int`; the
 * bitwise operators on 32-bit words come from the Bits module.
 */
module Cidr {
  import opened Wrappers
  import opened Bits
  import opened Text

  /** `CIDR.thirtytwo`: the 32-bit word with every bit set. */
  const ThirtyTwo: nat := 0xFFFF_FFFF

  /** The number of 32-bit words, 2**32. */
  const WordSize: nat := 0x1_0000_0000

  predicate IsWord(n: int)
  {
    0 <= n < WordSize
  }

  // ---------------------------------------------------------------------
  // Integer to dotted quad: `convert`
  // ---------------------------------------------------------------------

  /**
   * The values `(n >> 24) & 0xff`, `(n >> 16) & 0xff`, `(n >> 8) & 0xff` and
   * `n & 0xff`. On Python integers `>>` divides rounding down and `& 0xff`
   * keeps the non-negative remainder modulo 256, which is what `/` and `%`
   * do here for a positive divisor, negative `n` included.
   */
  function Octets(n: int): (o: seq<nat>)
    ensures |o| == 4 && forall i :: 0 <= i < 4 ==> o[i] < 0x100
  {
    [n / 0x100_0000 % 0x100, n / 0x1_0000 % 0x100, n / 0x100 % 0x100, n % 0x100]
  }

  /** `CIDR.convert`: any integer, as the dotted quad `'%d.%d.%d.%d'` of its octets. */
  function Convert(n: int): (s: string)
    ensures 7 <= |s| <= 15
  {
    OctetTextLength(n);
    var o := Octets(n);
    ShowNat(o[0]) + "." + ShowNat(o[1]) + "." + ShowNat(o[2]) + "." + ShowNat(o[3])
  }

  /** The decimal text of each octet has one to three digits. */
  lemma OctetTextLength(n: int)
    ensures forall i :: 0 <= i < 4 ==> 1 <= |ShowNat(Octets(n)[i])| <= 3
  {
    forall i | 0 <= i < 4
      ensures 1 <= |ShowNat(Octets(n)[i])| <= 3
    {
      ShortDecimal(Octets(n)[i]);
    }
  }

  /** A value below 1000 has at most three decimal digits. */
  lemma ShortDecimal(d: nat)
    requires d < 1000
    ensures 1 <= |ShowNat(d)| <= 3
  {
    if d >= 10 {
      assert |ShowNat(d)| == |ShowNat(d / 10)| + 1;
      if d / 10 >= 10 {
        assert |ShowNat(d / 10)| == |ShowNat(d / 100)| + 1;
      }
    }
  }

  /** The word whose octets, most significant first, are `o`. */
  function Pack(o: seq<nat>): nat
    requires |o| == 4
  {
    o[0] * 0x100_0000 + o[1] * 0x1_0000 + o[2] * 0x100 + o[3]
  }

  /** `(n % (a * b)) % a == n % a`. */
  lemma ModMod(n: int, a: int, b: int)
    requires a > 0 && b > 0
    ensures (n % (a * b)) % a == n % a
  {
    var q, r := n / (a * b), n % (a * b);
    assert n == q * (a * b) + r;
    assert r == (r / a) * a + r % a;
    assert n == (q * b + r / a) * a + r % a;
    ModUnique(n, a, q * b + r / a, r % a);
  }

  /** The digit of `n` in base `m` at position `d` is decided by `n % (d * m)`. */
  lemma DivMod(n: int, d: int, m: int)
    requires d > 0 && m > 0
    ensures (n / d) % m == ((n % (d * m)) / d) % m
  {
    var q, r := n / (d * m), n % (d * m);
    assert n == q * (d * m) + r;
    assert r == (r / d) * d + r % d;
    assert n == (q * m + r / d) * d + r % d;
    ModUnique(n, d, q * m + r / d, r % d);
    var t := r / d;
    assert t == (t / m) * m + t % m;
    assert q * m + t == (q + t / m) * m + t % m;
    ModUnique(q * m + t, m, q + t / m, t % m);
  }

  /** `convert` looks only at the low 32 bits of its argument. */
  lemma {:induction false} OctetsMod(n: int)
    ensures Octets(n % WordSize) == Octets(n)
  {
    var r := n % WordSize;
    DivMod(n, 0x100_0000, 0x100);
    DivMod(r, 0x100_0000, 0x100);
    ModMod(n, 0x100_0000 * 0x100, 1);
    DivMod(n, 0x1_0000, 0x100);
    DivMod(r, 0x1_0000, 0x100);
    ModMod(n, 0x1_0000 * 0x100, 0x100);
    DivMod(n, 0x100, 0x100);
    DivMod(r, 0x100, 0x100);
    ModMod(n, 0x100 * 0x100, 0x1_0000);
    ModMod(n, 0x100, 0x100_0000);
  }

  lemma ConvertMod(n: int)
    ensures Convert(n % WordSize) == Convert(n)
  {
    OctetsMod(n);
  }

  /** The remainder modulo `d * m` splits into the base-`m` digit at `d` and the remainder modulo `d`. */
  lemma DigitSplit(n: int, d: int, m: int)
    requires d > 0 && m > 0
    ensures n % (d * m) == ((n / d) % m) * d + n % d
  {
    var r := n % (d * m);
    DivMod(n, d, m);
    ModMod(n, d, m);
    assert r / d < m by {
      assert r < d * m;
    }
    ModUnique(r / d, m, 0, r / d);
    assert r == (r / d) * d + r % d;
  }

  /** A word is the sum of its octets in their places. */
  lemma PackOctets(n: int)
    requires IsWord(n)
    ensures Pack(Octets(n)) == n
  {
    var o := Octets(n);
    assert n == (n / 0x100_0000) * 0x100_0000 + n % 0x100_0000;
    ModUnique(n / 0x100_0000, 0x100, 0, n / 0x100_0000);
    DigitSplit(n, 0x1_0000, 0x100);
    DigitSplit(n, 0x100, 0x100);
    assert n % 0x100_0000 == o[1] * 0x1_0000 + n % 0x1_0000;
    assert n % 0x1_0000 == o[2] * 0x100 + o[3];
  }

  /** Four values below 256, packed, come back out as the octets. */
  lemma OctetsPack(o: seq<nat>)
    requires |o| == 4 && forall i :: 0 <= i < 4 ==> o[i] < 256
    ensures Octets(Pack(o)) == o
  {
    var n := Pack(o);
    var low3 := o[1] * 0x1_0000 + o[2] * 0x100 + o[3];
    var low2 := o[2] * 0x100 + o[3];
    ModUnique(n, 0x100_0000, o[0], low3);
    ModUnique(n, 0x1_0000, o[0] * 0x100 + o[1], low2);
    ModUnique(o[0] * 0x100 + o[1], 0x100, o[0], o[1]);
    ModUnique(n, 0x100, o[0] * 0x1_0000 + o[1] * 0x100 + o[2], o[3]);
    ModUnique(o[0] * 0x1_0000 + o[1] * 0x100 + o[2], 0x100, o[0] * 0x100 + o[1], o[2]);
  }

  /** The four fields that `convert` writes, each the decimal text of a value in 0..255. */
  function Fields(n: int): seq<string>
  {
    var o := Octets(n);
    [ShowNat(o[0]), ShowNat(o[1]), ShowNat(o[2]), ShowNat(o[3])]
  }

  /** `'%d.%d.%d.%d'` is the four fields joined by dots. */
  lemma ConvertJoin(n: int)
    ensures Convert(n) == Join(Fields(n), '.')
  {
    var f := Fields(n);
    assert f[1..][1..][1..] == [f[3]];
    assert Join(f[2..], '.') == f[2] + "." + f[3];
    assert Join(f[1..], '.') == f[1] + "." + (f[2] + "." + f[3]);
  }

  /** `convert` writes exactly four dot-separated fields, the octets of `n` in decimal. */
  lemma ConvertFields(n: int)
    ensures Split(Convert(n), '.') == Fields(n)
    ensures forall i :: 0 <= i < 4 ==> Octets(n)[i] < 256
  {
    var f := Fields(n);
    forall i | 0 <= i < 4
      ensures '.' !in f[i]
    {
      assert forall j :: 0 <= j < |f[i]| ==> IsDigit(f[i][j]);
    }
    ConvertJoin(n);
    SplitJoin(f, '.');
  }

  // ---------------------------------------------------------------------
  // Dotted quad to integer
  // ---------------------------------------------------------------------

  /** A field that `int()` reads as a value in 0..255. */
  predicate IsOctetText(p: string)
  {
    ParseInt(p).Some? && 0 <= ParseInt(p).value < 256
  }

  /**
   * The address or netmask text the model reads: at least four
   * dot-separated fields, the first four of them integers in 0..255.
   * Fields after the fourth are never looked at. `CIDR.__init__` also
   * computes a value from integers outside 0..255, whose shifted fields
   * then overlap; such text is outside the model.
   */
  predicate IsDottedQuad(s: string)
  {
    var parts := Split(s, '.');
    |parts| >= 4 && forall i :: 0 <= i < 4 ==> IsOctetText(parts[i])
  }

  /** The four values read from the first four fields. */
  function QuadOctets(s: string): (o: seq<nat>)
    requires IsDottedQuad(s)
    ensures |o| == 4 && forall i :: 0 <= i < 4 ==> o[i] < 256
  {
    var parts := Split(s, '.');
    seq(4, i requires 0 <= i < 4 => ParseInt(parts[i]).value)
  }

  /** `int(parts[0]) << 24 | int(parts[1]) << 16 | int(parts[2]) << 8 | int(parts[3])`. */
  function DottedValue(s: string): (n: nat)
    requires IsDottedQuad(s)
    ensures IsWord(n)
  {
    var o := QuadOctets(s);
    Pow2Octets();
    Or(Or(Or(o[0] * Pow2(24), o[1] * Pow2(16), 32), o[2] * Pow2(8), 32), o[3], 32)
  }

  /** The shifted fields do not overlap, so or-ing them adds them. */
  lemma DottedValueSum(s: string)
    requires IsDottedQuad(s)
    ensures DottedValue(s) == Pack(QuadOctets(s))
  {
    var o := QuadOctets(s);
    Pow2Octets();
    var high := o[0] * Pow2(24);
    var mid := o[1] * Pow2(16);
    OrDisjoint(high, o[0], 0x100_0000, mid, 24, 32);
    var a := Or(high, mid, 32);
    var low := o[2] * Pow2(8);
    OrDisjoint(a, o[0] * 0x100 + o[1], 0x1_0000, low, 16, 32);
    var b := Or(a, low, 32);
    OrDisjoint(b, o[0] * 0x1_0000 + o[1] * 0x100 + o[2], 0x100, o[3], 8, 32);
  }

  /** Reading back what `convert` writes gives the number modulo 2**32, negative numbers included. */
  lemma ParseConvert(n: int)
    ensures IsDottedQuad(Convert(n))
    ensures DottedValue(Convert(n)) == n % WordSize
  {
    ConvertFields(n);
    var o := Octets(n);
    forall i | 0 <= i < 4
      ensures ParseInt(Fields(n)[i]) == Some(o[i])
    {
      ParseIntShow(o[i]);
    }
    assert QuadOctets(Convert(n)) == o;
    DottedValueSum(Convert(n));
    OctetsMod(n);
    PackOctets(n % WordSize);
  }

  /** Text of exactly four canonical decimal fields, each at most 255. */
  predicate IsCanonicalQuad(s: string)
  {
    var parts := Split(s, '.');
    |parts| == 4 && forall i :: 0 <= i < 4 ==> Canonical(parts[i]) && ParseDigits(parts[i]) < 256
  }

  /** `convert` writes a canonical dotted quad back exactly as it was read. */
  lemma ConvertParse(s: string)
    requires IsCanonicalQuad(s)
    ensures IsDottedQuad(s)
    ensures Convert(DottedValue(s)) == s
  {
    var parts := Split(s, '.');
    forall i | 0 <= i < 4
      ensures ParseInt(parts[i]) == Some(ParseDigits(parts[i]))
    {
      ParseIntCanonical(parts[i]);
    }
    var o := QuadOctets(s);
    DottedValueSum(s);
    OctetsPack(o);
    forall i | 0 <= i < 4
      ensures ShowNat(o[i]) == parts[i]
    {
      ShowParse(parts[i]);
    }
    assert Fields(DottedValue(s)) == parts;
    ConvertJoin(DottedValue(s));
    JoinSplit(s, '.');
  }

  // ---------------------------------------------------------------------
  // Masks
  // ---------------------------------------------------------------------

  /** `min(max(bitlength, 0), 32)`: how many of the 32 iterations of the mask loop add a 1 bit. */
  function Clamp(bitlength: int): (c: nat)
    ensures c <= 32
    ensures 0 <= bitlength <= 32 ==> c == bitlength
  {
    if bitlength < 0 then 0 else if bitlength > 32 then 32 else bitlength
  }

  /** The 32-bit mask of a `/c` prefix: the top `c` bits set, the rest clear. */
  function PrefixMask(c: nat): (m: nat)
    requires c <= 32
    ensures IsWord(m)
  {
    Pow2Octets();
    HighOnes(32 - c, 32)
  }

  /**
   * The loop of `CIDR.__init__` that builds the mask for an integer prefix
   * length: 32 times, shift the mask left and add 1 while `i < bitlength`.
   */
  method BuildMask(bitlength: int) returns (mask: nat)
    ensures mask == PrefixMask(Clamp(bitlength))
  {
    var c := Clamp(bitlength);
    mask := 0;
    for i := 0 to 32
      invariant mask == HighOnes(i - (if i < c then i else c), i)
    {
      mask := mask * 2;
      if i < bitlength {
        mask := mask + 1;
      }
    }
  }

  /**
   * A prefix mask is a 32-bit word with exactly `c` one bits, so the
   * bitlength that a netmask yields (its number of 1 bits) is the prefix
   * length; `/0` is the empty mask and `/32` the full one.
   */
  lemma PrefixMaskBits(c: nat)
    requires c <= 32
    ensures IsWord(PrefixMask(c))
    ensures PopCount(PrefixMask(c)) == c
    ensures c == 0 <==> PrefixMask(c) == 0
    ensures c == 32 <==> PrefixMask(c) == ThirtyTwo
  {
    Pow2Octets();
    PopCountHighOnes(32 - c, 32);
    if c > 0 {
      Pow2Monotone(32 - c, 31);
      Pow2Add(1, 31);
    }
    if c < 32 {
      Pow2Monotone(1, 32 - c);
    }
  }

  /**
   * The netmask `__repr__` prints for a `/c` prefix, given back as a dotted
   * netmask, yields the same mask and the same bitlength.
   */
  lemma NetmaskRoundTrip(c: nat)
    requires c <= 32
    ensures IsDottedQuad(Convert(PrefixMask(c)))
    ensures DottedValue(Convert(PrefixMask(c))) == PrefixMask(c)
    ensures PopCount(DottedValue(Convert(PrefixMask(c)))) == c
  {
    PrefixMaskBits(c);
    ParseConvert(PrefixMask(c));
    ModUnique(PrefixMask(c), WordSize, 0, PrefixMask(c));
  }

  // ---------------------------------------------------------------------
  // Network, broadcast and host range
  // ---------------------------------------------------------------------

  /** `ip & mask`, the network address. */
  function NetworkOf(ip: nat, mask: nat): (r: nat)
    ensures IsWord(r)
    ensures And(r, Complement(mask, 32), 32) == 0
  {
    Pow2Octets();
    AndComplementDisjoint(ip, mask, 32);
    And(ip, mask, 32)
  }

  /**
   * `ip | ~mask` as Python computes it when `mask` is a 32-bit word, as the
   * mask of a `CIDR` always is: `~mask` is then negative with every bit
   * above bit 31 set, so the result is the negative number whose low 32
   * bits are `ip | (~mask & thirtytwo)`. For a wider `mask` Python's value
   * can be lower still; only its low 32 bits, which `convert` reads, are
   * sure to be these.
   */
  function BroadcastOf(ip: nat, mask: nat): (r: int)
    ensures 0 <= r + WordSize && r < 0
  {
    Pow2Octets();
    Or(ip, Complement(mask, 32), 32) - WordSize
  }

  /** `network + 1`, the value `CIDR.__init__` converts into the first host. */
  function FirstHostOf(ip: nat, mask: nat): (r: nat)
    ensures 1 <= r <= WordSize
  {
    NetworkOf(ip, mask) + 1
  }

  /** `(ip | ~mask) - 1`, the value `CIDR.__init__` converts into the last host. */
  function LastHostOf(ip: nat, mask: nat): (r: int)
    ensures r % WordSize == (Or(ip, Complement(mask, 32), 32) - 1) % WordSize
  {
    WordShift(Or(ip, Complement(mask, 32), 32) - 1);
    BroadcastOf(ip, mask) - 1
  }

  /** `(~mask & thirtytwo) - 1`, the count of available addresses `__repr__` prints. */
  function AvailableOf(mask: nat): (n: int)
    ensures n == ThirtyTwo - 1 - mask % WordSize
    ensures -1 <= n < ThirtyTwo
  {
    Pow2Octets();
    ComplementValue(mask, 32);
    Complement(mask, 32) - 1
  }

  /**
   * For a `/c` prefix, the network address is `ip` rounded down to a
   * multiple of the block size `2**(32 - c)`, the broadcast address is the
   * last word of that block, and `ip` lies between the two.
   */
  lemma PrefixBlock(ip: nat, c: nat)
    requires IsWord(ip) && c <= 32
    ensures var size := Pow2(32 - c);
            var network := NetworkOf(ip, PrefixMask(c));
            var broadcast := BroadcastOf(ip, PrefixMask(c)) % WordSize;
            && network == ip - ip % size
            && broadcast == network + size - 1
            && network <= ip <= broadcast
  {
    PrefixNetwork(ip, c);
    PrefixBroadcast(ip, c);
  }

  /** The network address of a `/c` prefix clears the low `32 - c` bits of `ip`. */
  lemma PrefixNetwork(ip: nat, c: nat)
    requires IsWord(ip) && c <= 32
    ensures NetworkOf(ip, PrefixMask(c)) == ip - ip % Pow2(32 - c)
  {
    Pow2Octets();
    ModUnique(ip, WordSize, 0, ip);
    AndHighOnes(ip, 32 - c, 32);
  }

  /** The low 32 bits of the broadcast address of a `/c` prefix set the low `32 - c` bits of `ip`. */
  lemma PrefixBroadcast(ip: nat, c: nat)
    requires IsWord(ip) && c <= 32
    ensures BroadcastOf(ip, PrefixMask(c)) % WordSize == ip - ip % Pow2(32 - c) + Pow2(32 - c) - 1
  {
    BroadcastLow(ip, PrefixMask(c));
    PrefixHostBits(ip, c);
  }

  /** Reduced modulo 2**32, Python's negative `ip | ~mask` is the 32-bit `ip | ~mask`. */
  lemma BroadcastLow(ip: nat, mask: nat)
    ensures BroadcastOf(ip, mask) % WordSize == Or(ip, Complement(mask, 32), 32)
  {
    var low := Or(ip, Complement(mask, 32), 32);
    assert low < WordSize by {
      Pow2Octets();
    }
    WordShift(low);
    ModUnique(low, WordSize, 0, low);
  }

  /** The 32-bit `ip | ~mask` of a `/c` prefix sets the low `32 - c` bits of `ip`. */
  lemma PrefixHostBits(ip: nat, c: nat)
    requires IsWord(ip) && c <= 32
    ensures Or(ip, Complement(PrefixMask(c), 32), 32) == ip - ip % Pow2(32 - c) + Pow2(32 - c) - 1
  {
    PrefixComplement(c);
    OrHostBits(ip, Complement(PrefixMask(c), 32), 32 - c);
  }

  /** Or-ing the `k` low ones into a word sets its low `k` bits. */
  lemma OrHostBits(ip: nat, hostBits: nat, k: nat)
    requires IsWord(ip) && k <= 32 && hostBits == Pow2(k) - 1
    ensures Or(ip, hostBits, 32) == ip - ip % Pow2(k) + Pow2(k) - 1
  {
    assert ip < Pow2(32) by {
      Pow2Octets();
    }
    OrOnes(ip, hostBits, k, 32);
  }

  /** The host bits of a `/c` prefix: the low `32 - c` bits. */
  lemma PrefixComplement(c: nat)
    requires c <= 32
    ensures Complement(PrefixMask(c), 32) == Pow2(32 - c) - 1
  {
    var m := PrefixMask(c);
    ComplementValue(m, 32);
    ModUnique(m, Pow2(32), 0, m);
  }

  /**
   * The available-address count is the size of the host range from the
   * first host (network + 1) to the last host (broadcast - 1): `2**(32 - c) - 2`.
   * No case is made for short prefixes: `/31` counts 0 and `/32` counts -1,
   * the last host then lying before the first.
   */
  lemma AvailableCountsHostRange(ip: nat, c: nat)
    requires IsWord(ip) && c <= 32
    ensures var network := NetworkOf(ip, PrefixMask(c));
            var broadcast := BroadcastOf(ip, PrefixMask(c)) % WordSize;
            && AvailableOf(PrefixMask(c)) == Pow2(32 - c) - 2
            && AvailableOf(PrefixMask(c)) == (broadcast - 1) - (network + 1) + 1
  {
    PrefixBlock(ip, c);
    var m := PrefixMask(c);
    PrefixMaskBits(c);
    Pow2Octets();
    ModUnique(m, WordSize, 0, m);
    ComplementValue(m, 32);
  }

  /** A `/32` is a single address: network and broadcast are `ip`, and the count is -1. */
  lemma SingleAddress(ip: nat)
    requires IsWord(ip)
    ensures NetworkOf(ip, ThirtyTwo) == ip
    ensures BroadcastOf(ip, ThirtyTwo) % WordSize == ip
    ensures AvailableOf(ThirtyTwo) == -1
  {
    PrefixMaskBits(32);
    PrefixBlock(ip, 32);
    AvailableCountsHostRange(ip, 32);
  }

  // ---------------------------------------------------------------------
  // Reading the argument
  // ---------------------------------------------------------------------

  /** `network.split('/', 1)` when `'/' in network`, and `network` with no bit length otherwise. */
  function Halves(network: string): (r: (string, Option<string>))
    ensures r.1.None? ==> '/' !in network && r.0 == network
    ensures r.1.Some? ==> network == r.0 + "/" + r.1.value && '/' !in r.0
  {
    match Find(network, '/')
    case None => (network, None)
    case Some(i) =>
      assert network == network[..i] + "/" + network[i + 1..];
      (network[..i], Some(network[i + 1..]))
  }

  /** Only the first `/` splits: the bit-length text keeps any later `/`. */
  lemma FirstSlashSplits(address: string, rest: string)
    requires '/' !in address
    ensures Halves(address + "/" + rest) == (address, Some(rest))
  {
    var network := address + "/" + rest;
    FindAfterPiece(address, '/', rest);
    assert network[..|address|] == address;
    assert network[|address| + 1..] == rest;
  }

  /** The prefix length `int()` reads: 32 without a `/`, None when the text after it is no integer. */
  function PrefixOf(network: string): Option<int>
  {
    var bits := Halves(network).1;
    if bits.None? then Some(32) else ParseInt(bits.value)
  }

  /**
   * The arguments the model of `CIDR.__init__` takes: a dotted-quad
   * address, and after the `/` either an integer or a dotted-quad netmask.
   * The source raises on text with fewer than four fields or a field that
   * is no integer, and computes overlapping values from fields outside
   * 0..255; neither is modelled.
   */
  predicate WellFormed(network: string)
  {
    var (address, bits) := Halves(network);
    && IsDottedQuad(address)
    && (bits.Some? && ParseInt(bits.value).None? ==> IsDottedQuad(bits.value))
  }

  /** Taking away 2**32 leaves the low 32 bits unchanged. */
  lemma WordShift(x: int)
    ensures (x - WordSize) % WordSize == x % WordSize
  {
    ModUnique(x - WordSize, WordSize, x / WordSize - 1, x % WordSize);
  }

  /**
   * The part of `CIDR.__init__` that settles the bit length and the mask:
   * 32 without a `/`; an integer after the `/` runs the mask loop; any other
   * text after it is read as a dotted netmask whose 1 bits are counted.
   */
  method ReadMask(network: string) returns (bitlength: int, mask: nat)
    requires WellFormed(network)
    ensures PrefixOf(network).Some? ==>
              bitlength == PrefixOf(network).value && mask == PrefixMask(Clamp(bitlength))
    ensures PrefixOf(network).None? ==>
              mask == DottedValue(Halves(network).1.value) && bitlength == PopCount(mask)
    ensures '/' !in network ==> bitlength == 32 && mask == ThirtyTwo
    ensures IsWord(mask)
  {
    var bits := Halves(network).1;
    var prefix := if bits.None? then Some(32) else ParseInt(bits.value);
    if prefix.Some? {
      mask := BuildMask(prefix.value);
      bitlength := prefix.value;
      PrefixMaskBits(Clamp(bitlength));
    } else {
      mask := DottedValue(bits.value);
      bitlength := PopCount(mask);
    }
  }

  /**
   * The network address, the first host and the last host that
   * `CIDR.__init__` converts. Each is the dotted quad of its Python value
   * modulo 2**32 and reads back as that 32-bit word: the first host of the
   * last block wraps to 0.0.0.0, and the last host is one below the 32-bit
   * broadcast address, wrapping to 255.255.255.255 when that address is 0.
   */
  method Addresses(ip: nat, mask: nat) returns (subnet: string, first: string, last: string)
    ensures subnet == Convert(NetworkOf(ip, mask))
    ensures IsDottedQuad(subnet) && DottedValue(subnet) == NetworkOf(ip, mask)
    ensures first == Convert(FirstHostOf(ip, mask)) && first == Convert(FirstHostOf(ip, mask) % WordSize)
    ensures IsDottedQuad(first) && DottedValue(first) == FirstHostOf(ip, mask) % WordSize
    ensures last == Convert(LastHostOf(ip, mask)) && last == Convert(LastHostOf(ip, mask) % WordSize)
    ensures IsDottedQuad(last) && DottedValue(last) == LastHostOf(ip, mask) % WordSize
  {
    var network := NetworkOf(ip, mask);
    subnet := Convert(network);
    ModUnique(network, WordSize, 0, network);
    ParseConvert(network);
    var firstHost := FirstHostOf(ip, mask);
    first := Convert(firstHost);
    ConvertMod(firstHost);
    ParseConvert(firstHost);
    var lastHost := LastHostOf(ip, mask);
    last := Convert(lastHost);
    ConvertMod(lastHost);
    ParseConvert(lastHost);
  }

  class CIDR {
    /** The prefix length, given or counted from the netmask. */
    const bitlength: int
    const mask: nat
    const ip: nat
    /** The first host, the last host and the network address, as dotted quads. */
    const first: string
    const last: string
    const subnet: string

    /** `CIDR.__init__`. */
    constructor (network: string)
      requires WellFormed(network)
      ensures ip == DottedValue(Halves(network).0)
      ensures PrefixOf(network).Some? ==>
                bitlength == PrefixOf(network).value && mask == PrefixMask(Clamp(bitlength))
      ensures PrefixOf(network).None? ==>
                mask == DottedValue(Halves(network).1.value) && bitlength == PopCount(mask)
      ensures '/' !in network ==> bitlength == 32 && mask == ThirtyTwo
      ensures IsWord(ip) && IsWord(mask)
      ensures subnet == Convert(NetworkOf(ip, mask))
      ensures first == Convert(FirstHostOf(ip, mask))
      ensures last == Convert(LastHostOf(ip, mask))
      ensures IsDottedQuad(subnet) && DottedValue(subnet) == NetworkOf(ip, mask)
      ensures IsDottedQuad(first) && DottedValue(first) == FirstHostOf(ip, mask) % WordSize
      ensures IsDottedQuad(last) && DottedValue(last) == LastHostOf(ip, mask) % WordSize
    {
      var b, m := ReadMask(network);
      var a := DottedValue(Halves(network).0);
      var s, f, l := Addresses(a, m);
      bitlength, mask, ip := b, m, a;
      first, last, subnet := f, l, s;
    }

    /** The netmask line of `__repr__`: the mask as a dotted quad, which reads back as the mask. */
    function Netmask(): (s: string)
      ensures IsDottedQuad(s) && DottedValue(s) == mask % WordSize
    {
      ParseConvert(mask);
      Convert(mask)
    }

    /** The broadcast-address line of `__repr__`: the low 32 bits of `ip | ~mask`. */
    function BroadcastAddress(): (s: string)
      ensures s == Convert(Or(ip, Complement(mask, 32), 32))
    {
      ConvertMod(BroadcastOf(ip, mask));
      BroadcastLow(ip, mask);
      Convert(BroadcastOf(ip, mask))
    }

    /** The available-addresses line of `__repr__`. */
    function AvailableAddresses(): (n: int)
      ensures IsWord(mask) ==> n == ThirtyTwo - mask - 1
    {
      Pow2Octets();
      ComplementValue(mask, 32);
      if IsWord(mask) then
        ModUnique(mask, WordSize, 0, mask);
        AvailableOf(mask)
      else AvailableOf(mask)
    }
  }
}
