/** The replies a command handler hands to the protocol layer, before any RESP serialisation. */
module Resp {
  import opened ByteOrder

  /** The error kinds the hash commands report. */
  datatype ErrorKind =
    | WrongNumberOfArguments(command: string)
    | WrongType
    | NotValidInt

  /** One reply: RESP's nil bulk string, integer, bulk string, array, +OK status, or an error. */
  datatype Reply =
    | Nil
    | Integer(n: int)
    | Bulk(bytes: Bytes)
    | Array(items: seq<Reply>)
    | Ok
    | Error(kind: ErrorKind)

  /** resp.Hash: the type tag a hash record's metadata entry holds. */
  const HashType: byte := 5

  /** The bulk string of each byte string, in order. */
  function Bulks(bs: seq<Bytes>): seq<Reply>
  {
    seq(|bs|, i requires 0 <= i < |bs| => Bulk(bs[i]))
  }
}
