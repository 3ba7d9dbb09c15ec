/** Ideal seal and open: a ciphertext records what was sealed, and opening checks key and version. */
module Crypto {
  import opened Prelude

  type UserId = string
  type Key = nat
  type Plain = nat

  /** Authenticated encryption under a data key, with the key version as additional data. `Junk` is
      anything that was not produced by sealing. */
  datatype Cipher = Sealed(key: Key, version: nat, plain: Plain) | Junk(bytes: seq<nat>)

  /** A data key boxed to one recipient. */
  datatype Box = BoxTo(recipient: UserId, key: Key) | JunkBox(bytes: seq<nat>)

  function EncryptPayload(plain: Plain, key: Key, version: nat): Cipher { Sealed(key, version, plain) }

  function DecryptPayload(c: Cipher, key: Key, version: nat): Option<Plain> {
    if c.Sealed? && c.key == key && c.version == version then Some(c.plain) else None
  }

  function SealDataKey(key: Key, recipient: UserId): Box { BoxTo(recipient, key) }

  function OpenEnvelope(b: Box, me: UserId): Option<Key> {
    if b.BoxTo? && b.recipient == me then Some(b.key) else None
  }
}
