/** Record types and the bitmaps of them that denial records carry, and times to live. */
module RecordTypes {
  import opened Octets

  /** Nanoseconds in a second, and the longest time to live in seconds. */
  const SECOND: nat := 1_000_000_000
  const MAX_TTL: uint32 := 0xFFFF_FFFF

  const TYPE_NS: uint16 := 2
  const TYPE_CNAME: uint16 := 5
  const TYPE_SOA: uint16 := 6
  const TYPE_DS: uint16 := 43
  const TYPE_RRSIG: uint16 := 46
  const TYPE_NSEC: uint16 := 47
  const TYPE_DNSKEY: uint16 := 48
  const TYPE_NSEC3: uint16 := 50

  /** Neither the type asked for nor an alias. */
  predicate Lacks(types: seq<uint16>, qtype: uint16)
  {
    qtype !in types && TYPE_CNAME !in types
  }
}
