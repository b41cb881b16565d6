/** Values shared by the object store, the zip writer and the archiver. */
module Objects {
  /** One octet of object or archive content. */
  newtype byte = x: int | 0 <= x < 256

  type Bytes = seq<byte>

  datatype Option<T> = None | Some(value: T)

  /** A listed source object (s3client.S3Object): its key and its size in bytes. */
  datatype ObjectInfo = ObjectInfo(key: string, size: int)

  /** Where an object lives in the store. */
  datatype Location = Location(bucket: string, key: string)

  /** The locations of the first `n` objects of the listing, in listing order. */
  function LocationsOf(bucket: string, objects: seq<ObjectInfo>, n: nat): (locs: seq<Location>)
    requires n <= |objects|
    ensures |locs| == n
  {
    if n == 0 then [] else LocationsOf(bucket, objects, n - 1) + [Location(bucket, objects[n - 1].key)]
  }

  /** Requesting one more object extends a log that ends with the locations of the first `n` by that object's location. */
  lemma LocationsOfSnoc(log: seq<Location>, bucket: string, objects: seq<ObjectInfo>, n: nat)
    requires n < |objects|
    ensures (log + LocationsOf(bucket, objects, n)) + [Location(bucket, objects[n].key)] ==
      log + LocationsOf(bucket, objects, n + 1)
  {
    assert LocationsOf(bucket, objects, n + 1) == LocationsOf(bucket, objects, n) + [Location(bucket, objects[n].key)];
  }

  /** Position `j` of the locations is object `j`'s location. */
  lemma {:induction false} LocationsOfAt(bucket: string, objects: seq<ObjectInfo>, n: nat, j: nat)
    requires j < n <= |objects|
    ensures LocationsOf(bucket, objects, n)[j] == Location(bucket, objects[j].key)
  {
    if j < n - 1 {
      LocationsOfAt(bucket, objects, n - 1, j);
    }
  }
}
