/** MongoDB record identifiers and their text form. */
module Ids {
  import opened Bytes
  import opened Wrappers
  import Hex

  /** The 12 octets of an ObjectId, chosen by the database driver. */
  type ObjectId = b: seq<byte> | |b| == 12 witness [0, 0, 0, 0, 0, 0, 0, 0, 0, 0, 0, 0]

  /** `str(ObjectId)`: 24 lower-case hexadecimal digits. */
  function IdString(oid: ObjectId): (s: string)
    ensures |s| == 24 && Hex.IsLowerHex(s)
    ensures Hex.Decode(s) == Some(oid)  // so distinct ids print differently
  {
    Hex.DecodeEncode(oid);
    Hex.Encode(oid)
  }
}
