/** Hit and miss accounting shared by the caches. */
module Counters {
  /** `hits / (hits + misses) if hits + misses > 0 else 0`, over exact reals. */
  function HitRate(hits: nat, misses: nat): (rate: real)
    ensures hits + misses == 0 ==> rate == 0.0
    ensures hits + misses > 0 ==> rate * (hits + misses) as real == hits as real
    ensures 0.0 <= rate <= 1.0
    ensures rate == 1.0 <==> hits > 0 && misses == 0
  {
    if hits + misses > 0 then hits as real / (hits + misses) as real else 0.0
  }
}
