/**
 * The S3 bucket both lambdas share, as an in-memory list of objects in
 * listing order. The collector adds objects; the loader reads them in order
 * and deletes each one after loading it.
 */
module ObjectStore {

  /** An object of the bucket: its key and its body, already decoded from UTF-8. */
  datatype Blob = Blob(key: string, body: string)

  predicate DistinctKeys(blobs: seq<Blob>) {
    forall i, j :: 0 <= i < j < |blobs| ==> blobs[i].key != blobs[j].key
  }

  /** `blobs` without the object named `key`. */
  function Removed(blobs: seq<Blob>, key: string): (r: seq<Blob>)
    ensures |r| <= |blobs|
    ensures forall b :: b in r <==> b in blobs && b.key != key
  {
    if blobs == [] then []
    else (if blobs[0].key == key then [] else [blobs[0]]) + Removed(blobs[1..], key)
  }

  /** Removing the first object of a bucket whose keys are distinct leaves the rest, in order. */
  lemma {:induction false} RemovedFirst(blobs: seq<Blob>)
    requires blobs != [] && DistinctKeys(blobs)
    ensures Removed(blobs, blobs[0].key) == blobs[1..]
  {
    KeepAll(blobs[1..], blobs[0].key);
  }

  lemma {:induction false} KeepAll(blobs: seq<Blob>, key: string)
    requires forall i :: 0 <= i < |blobs| ==> blobs[i].key != key
    ensures Removed(blobs, key) == blobs
  {
    if blobs != [] {
      KeepAll(blobs[1..], key);
    }
  }

  class Bucket {
    var objects: seq<Blob>

    constructor (objects: seq<Blob>)
      ensures this.objects == objects
    {
      this.objects := objects;
    }

    /** `s3_file.delete()` */
    method Delete(key: string)
      modifies this
      ensures objects == Removed(old(objects), key)
    {
      objects := Removed(objects, key);
    }
  }
}
