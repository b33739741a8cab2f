/** Values shared by the metadata server, the gateway cache and the checkpoint. */
module MetaTypes {

  datatype Option<+T> = None | Some(value: T)

  type Byte = x: int | 0 <= x < 256

  /** The characters of a C string, without its terminator. */
  type Name = seq<Byte>

  const MAX_BUCKET_LENGTH := 255
  const MAX_KEY_LENGTH := 1024

  datatype ObjectKey = ObjectKey(bucket: Name, key: Name)

  /** The key fits the fixed character arrays of a manifest or a cache entry. */
  predicate Fits(k: ObjectKey) {
    |k.bucket| <= MAX_BUCKET_LENGTH && |k.key| <= MAX_KEY_LENGTH
  }

  datatype Fragment = Fragment(node: nat, location: nat)

  datatype Manifest = Manifest(
    id: ObjectKey,
    size: nat,
    checksum: nat,
    writeSequence: nat,
    datacenterId: nat,
    fragments: seq<Fragment>)

  /** What calloc or memset leaves in a manifest. */
  const ZERO_MANIFEST := Manifest(ObjectKey([], []), 0, 0, 0, 0, [])

  ghost function Get<K, V>(m: map<K, V>, k: K): Option<V> {
    if k in m then Some(m[k]) else None
  }
}
