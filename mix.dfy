/**
  The integer step of `Audio::mix`: the number of output samples asked of the
  resampler is rounded up to an even count, so that the output stays whole
  interleaved stereo pairs. The count is an unsigned 32-bit `spx_uint32_t`;
  the truncated product `in_len * ratio` it starts from is floating point
  and comes in as a parameter.
 */
module AudioMix {

  newtype u32 = x: int | 0 <= x < 0x1_0000_0000

  const U32_MAX: u32 := 0xFFFF_FFFF

  /** `out_len += out_len & 1` as written: the low bit (`& 1`, which is
      `% 2` on an unsigned value) is added and the sum wraps modulo 2^32. */
  function RoundOutLenAsWritten(outLen: u32): (r: u32)
    ensures r % 2 == 0
    ensures outLen < U32_MAX ==> outLen <= r <= outLen + 1
    ensures outLen % 2 == 0 ==> r == outLen
  {
    ((outLen as int + outLen as int % 2) % 0x1_0000_0000) as u32
  }

  /** At the largest 32-bit count the addition wraps: the result is 0, below
      the count it was meant to round up. */
  lemma RoundOutLenAsWrittenWraps()
    ensures RoundOutLenAsWritten(U32_MAX) == 0
  {
  }

  /** The rounding as intended, computed without wrap-around: the smallest
      even count that is not below `outLen`. */
  function RoundOutLen(outLen: u32): (r: nat)
    ensures r % 2 == 0
    ensures outLen as nat <= r <= outLen as nat + 1
    ensures r == outLen as nat <==> outLen as nat % 2 == 0
  {
    outLen as nat + outLen as nat % 2
  }

  /** Below the largest 32-bit count the two agree. */
  lemma RoundOutLenAgrees(outLen: u32)
    requires outLen < U32_MAX
    ensures RoundOutLenAsWritten(outLen) as nat == RoundOutLen(outLen)
  {
  }
}
