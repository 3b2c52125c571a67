/** DNS messages as far as the resolver looks at them (section 4.1 of RFC 1035). */
module Messages {
  type uint32 = x: int | 0 <= x < 0x1_0000_0000

  const MAX_TTL: uint32 := 0xffff_ffff

  datatype Record = Record(data: string, ttl: uint32)
  datatype Msg = Msg(rcode: nat, answer: seq<Record>, ns: seq<Record>, extra: seq<Record>)

  const SUCCESS: nat := 0
  const FORMAT_ERROR: nat := 1
  const SERVER_FAILURE: nat := 2
  const NAME_ERROR: nat := 3
}
