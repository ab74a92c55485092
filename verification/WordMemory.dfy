/** Memory that the source writes words into: a map from addresses to words. A word never written reads as zero,
    as fresh pages do. */
module WordMemory {
  type Memory = map<nat, nat>

  function Word(m: Memory, address: nat): nat {
    if address in m then m[address] else 0
  }
}
