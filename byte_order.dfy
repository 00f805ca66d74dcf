/** Host-to-network byte order for 16-bit values, as used to fill the
    protocol field of a link-layer socket address. */
module ByteOrder {

  /** Htons: the two bytes of i trade places. The expression does not look at
      the host's byte order, so the swap happens on every host. */
  function Htons(i: bv16): (r: bv16)
    ensures (r & 0xff) == (i >> 8)
    ensures (r >> 8) == (i & 0xff)
  {
    ((i << 8) & 0xff00) | (i >> 8)
  }

  /** The same swap read as arithmetic on the unsigned value (computed in
      16 bits, where neither the product nor the sum can overflow). */
  lemma HtonsArithmetic(i: bv16)
    ensures Htons(i) == (i % 256) * 256 + i / 256
  {
  }

  /** Swapping twice restores the value. */
  lemma HtonsInvolution(x: bv16)
    ensures Htons(Htons(x)) == x
  {
  }

  lemma HtonsExamples()
    ensures Htons(0x1234) == 0x3412
    ensures Htons(0x0102) == 0x0201
  {
  }

  /** ETH_P_ALL, the "every protocol" filter the raw socket asks for. */
  const EthPAll: bv16 := 0x0003

  /** In network byte order the filter reads 0x0300 on every host. */
  lemma EthPAllNetworkOrder()
    ensures Htons(EthPAll) == 0x0300
  {
  }
}
