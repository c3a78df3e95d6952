/** The network a mesh address belongs to (`net.rs`): a bit mask, shown to be the
    arithmetic of prefixes in section 3.1 of RFC 4632. */
module NetworkAddress {
  import opened Text

  function Pow2(n: nat): (r: nat)
    ensures r >= 1
  {
    if n == 0 then 1 else 2 * Pow2(n - 1)
  }

  // ----- unsigned 32-bit words

  /** Bitwise and. */
  function And(x: nat, y: nat): nat
    decreases x
  {
    if x == 0 then 0 else (if x % 2 == 1 && y % 2 == 1 then 1 else 0) + 2 * And(x / 2, y / 2)
  }

  const U32_MAX: nat := 0xFFFF_FFFF

  type U32 = n: int | 0 <= n <= 0xFFFF_FFFF

  /** `n << k` on a 32-bit word: what leaves the word at the top is lost. */
  function ShiftLeft(n: U32, k: nat): U32
    requires k < 32
  {
    (n * Pow2(k)) % 0x1_0000_0000
  }

  function Mask(prefixLen: nat): U32
    requires prefixLen <= 32
  {
    if prefixLen == 0 then 0 else ShiftLeft(U32_MAX, 32 - prefixLen)
  }

  function Network(address: U32, prefixLen: nat): nat
    requires prefixLen <= 32
  {
    And(address, Mask(prefixLen))
  }

  /** `address_network`; the address is None when its text does not parse. */
  function AddressNetwork(address: Option<U32>, prefixLen: nat): Outcome<nat> {
    if address.None? || prefixLen > 32 then Err else Ok(Network(address.value, prefixLen))
  }

  // ----- shifting the low bits out and back in

  function High(x: nat, k: nat): nat {
    if k == 0 then x else High(x / 2, k - 1)
  }

  function Up(y: nat, k: nat): nat {
    if k == 0 then y else 2 * Up(y, k - 1)
  }

  lemma {:induction false} UpIsProduct(y: nat, k: nat)
    ensures Up(y, k) == y * Pow2(k)
  {
    if k > 0 {
      UpIsProduct(y, k - 1);
      ProductDoubles(y, Pow2(k - 1));
    }
  }

  lemma ProductDoubles(a: nat, b: nat)
    ensures 2 * (a * b) == a * (2 * b)
  {}

  lemma {:induction false} UpHighIsFloor(x: nat, k: nat)
    ensures Up(High(x, k), k) <= x < Up(High(x, k), k) + Pow2(k)
  {
    if k > 0 {
      UpHighIsFloor(x / 2, k - 1);
    }
  }

  lemma {:induction false} HighOfUp(y: nat, k: nat, j: nat)
    ensures High(Up(y, k), j) == if j <= k then Up(y, k - j) else High(y, j - k)
  {
    if j > 0 && k > 0 {
      HighOfUp(y, k - 1, j - 1);
    }
  }

  lemma {:induction false} HighOfHigh(x: nat, k: nat, j: nat)
    ensures High(High(x, k), j) == High(x, k + j)
  {
    if k > 0 {
      HighOfHigh(x / 2, k - 1, j);
    }
  }

  lemma {:induction false} UpOfUp(y: nat, k: nat, j: nat)
    ensures Up(Up(y, k), j) == Up(y, k + j)
  {
    if j > 0 {
      UpOfUp(y, k, j - 1);
    }
  }

  lemma HighIsQuotient(x: nat, k: nat)
    ensures High(x, k) == x / Pow2(k)
  {
    UpHighIsFloor(x, k);
    UpIsProduct(High(x, k), k);
    QuotientUnique(x, Pow2(k), High(x, k));
  }

  lemma QuotientsAgree(x: nat, d: nat, p: nat, q: nat)
    requires p * d <= x < p * d + d && q * d <= x < q * d + d
    ensures p == q
  {
    ProductOrder(p + 1, q, d);
    ProductOrder(q + 1, p, d);
    ProductOrder(p, q, d);
    ProductOrder(q, p, d);
  }

  lemma QuotientUnique(x: nat, d: nat, q: nat)
    requires d >= 1 && q * d <= x < q * d + d
    ensures x / d == q
  {
    assert x == (x / d) * d + x % d;
    QuotientsAgree(x, d, x / d, q);
  }

  lemma ProductOrder(a: nat, b: nat, d: nat)
    ensures a <= b ==> a * d <= b * d
    ensures (a + 1) * d == a * d + d
  {
    assert b * d == a * d + (b - a) * d;
  }

  // ----- the mask is arithmetic

  lemma Pow2At32()
    ensures Pow2(32) == 0x1_0000_0000
  {
    assert Pow2(8) == 0x100;
    assert Pow2(16) == 0x1_0000;
    assert Pow2(24) == 0x100_0000;
  }

  lemma {:induction false} Pow2Monotone(a: nat, b: nat)
    requires a <= b
    ensures Pow2(a) <= Pow2(b)
  {
    if a < b {
      Pow2Monotone(a, b - 1);
    }
  }

  lemma ShiftedOnes(c: nat)
    requires 1 <= c <= 0x1_0000_0000
    ensures (U32_MAX * c) % 0x1_0000_0000 == 0x1_0000_0000 - c
  {
    assert U32_MAX * c == 0x1_0000_0000 * (c - 1) + (0x1_0000_0000 - c);
  }

  lemma MaskIs(prefixLen: nat)
    requires prefixLen <= 32
    ensures Mask(prefixLen) + Pow2(32 - prefixLen) == Pow2(32)
  {
    Pow2At32();
    Pow2Monotone(32 - prefixLen, 32);
    ShiftedOnes(Pow2(32 - prefixLen));
  }

  lemma {:induction false} AndAllOnes(x: nat, m: nat, n: nat)
    requires x < Pow2(n) && m + 1 == Pow2(n)
    ensures And(x, m) == x
    decreases n
  {
    if n > 0 {
      assert m % 2 == 1 && m / 2 + 1 == Pow2(n - 1);
      AndAllOnes(x / 2, m / 2, n - 1);
    }
  }

  /** Anding with a word of ones above `k` zeros clears the `k` low bits. */
  lemma {:induction false} AndHighOnes(x: nat, m: nat, n: nat, k: nat)
    requires x < Pow2(n) && k <= n && m + Pow2(k) == Pow2(n)
    ensures And(x, m) == Up(High(x, k), k)
    decreases k
  {
    if k == 0 {
      AndAllOnes(x, m, n);
    } else {
      assert m % 2 == 0 && m / 2 + Pow2(k - 1) == Pow2(n - 1);
      AndHighOnes(x / 2, m / 2, n - 1, k - 1);
    }
  }

  lemma NetworkIsShift(address: U32, prefixLen: nat)
    requires prefixLen <= 32
    ensures Network(address, prefixLen) == Up(High(address, 32 - prefixLen), 32 - prefixLen)
  {
    MaskIs(prefixLen);
    Pow2At32();
    AndHighOnes(address, Mask(prefixLen), 32, 32 - prefixLen);
  }

  /** The network of an address is the address rounded down to a multiple of the size of
      the network, 2^(32 - prefix). */
  lemma NetworkIsFloor(address: U32, prefixLen: nat)
    requires prefixLen <= 32
    ensures var size := Pow2(32 - prefixLen);
            && Network(address, prefixLen) == (address / size) * size
            && Network(address, prefixLen) <= address < Network(address, prefixLen) + size
  {
    var k := 32 - prefixLen;
    NetworkIsShift(address, prefixLen);
    UpHighIsFloor(address, k);
    UpIsProduct(High(address, k), k);
    HighIsQuotient(address, k);
  }

  /** Two addresses are in one network exactly when their first `prefixLen` bits agree. */
  lemma SameNetwork(a: U32, b: U32, prefixLen: nat)
    requires prefixLen <= 32
    ensures Network(a, prefixLen) == Network(b, prefixLen)
       <==> a / Pow2(32 - prefixLen) == b / Pow2(32 - prefixLen)
  {
    var k := 32 - prefixLen;
    NetworkIsShift(a, prefixLen);
    NetworkIsShift(b, prefixLen);
    HighIsQuotient(a, k);
    HighIsQuotient(b, k);
    HighOfUp(High(a, k), k, k);
    HighOfUp(High(b, k), k, k);
  }

  /** Masking twice is masking by the shorter prefix. */
  lemma NetworkOfNetwork(address: U32, p: nat, q: nat)
    requires p <= 32 && q <= 32
    ensures Network(address, p) <= U32_MAX
    ensures Network(Network(address, p), q) == Network(address, if p < q then p else q)
  {
    var k, j := 32 - p, 32 - q;
    var y := High(address, k);
    NetworkIsShift(address, p);
    UpHighIsFloor(address, k);
    NetworkIsShift(Network(address, p), q);
    HighOfUp(y, k, j);
    if j <= k {
      UpOfUp(y, k - j, j);
    } else {
      HighOfHigh(address, k, j - k);
      NetworkIsShift(address, q);
    }
  }

  /** What a joining node routes: refused only for a bad address or prefix; otherwise a
      network of that prefix which holds the node itself. */
  lemma JoinRoute(address: Option<U32>, prefixLen: nat)
    ensures var route := AddressNetwork(address, prefixLen);
            && (route.Ok? <==> address.Some? && prefixLen <= 32)
            && (route.Ok? ==>
                  && route.value <= U32_MAX && Network(route.value, prefixLen) == route.value
                  && route.value <= address.value < route.value + Pow2(32 - prefixLen))
  {
    if address.Some? && prefixLen <= 32 {
      NetworkOfNetwork(address.value, prefixLen, prefixLen);
      NetworkIsFloor(address.value, prefixLen);
    }
  }
}
