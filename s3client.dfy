/**
  The object store as the archiver sees it: GetObject either hands out a
  fresh reader over the stored bytes or fails. Whether a call fails is an
  input of the call; a location the store does not hold always fails.
  Ghost state records how the archiver used the store: the client logs every
  location it was asked for and every reader it handed out, and each reader
  knows which request produced it, whether its bytes were copied out, how
  often it was closed, and how many requests had been made when it was last
  closed.
*/
module S3Client {
  import opened Objects

  class Client {
    const blobs: map<Location, Bytes>
    ghost var fetched: seq<Location>
    ghost var issued: seq<Reader>

    constructor (blobs: map<Location, Bytes>)
      ensures this.blobs == blobs && fetched == [] && issued == []
    {
      this.blobs := blobs;
      fetched, issued := [], [];
    }

    /** Opens the object at (bucket, key); `fails` stands for a network or permission error. */
    method GetObject(bucket: string, key: string, fails: bool) returns (r: Option<Reader>)
      modifies this
      ensures fetched == old(fetched) + [Location(bucket, key)]
      ensures issued == old(issued) + (if r.Some? then [r.value] else [])
      ensures r.None? <==> fails || Location(bucket, key) !in blobs
      ensures r.Some? ==>
        && fresh(r.value)
        && r.value.client == this
        && r.value.request == |old(fetched)|
        && r.value.body == blobs[Location(bucket, key)]
        && r.value.isOpen && !r.value.copied && r.value.closes == 0
    {
      var loc := Location(bucket, key);
      fetched := fetched + [loc];
      if fails || loc !in blobs {
        r := None;
      } else {
        var reader := new Reader(this, |fetched| - 1, blobs[loc]);
        issued := issued + [reader];
        r := Some(reader);
      }
    }
  }

  /** The body of one fetched object, to be read and then closed. */
  class Reader {
    const client: Client
    ghost const request: nat
    const body: Bytes
    ghost var isOpen: bool
    ghost var copied: bool
    ghost var closes: nat
    ghost var closedAfter: nat

    constructor (client: Client, ghost request: nat, body: Bytes)
      ensures this.client == client && this.request == request && this.body == body
      ensures isOpen && !copied && closes == 0
    {
      this.client, this.request, this.body := client, request, body;
      isOpen, copied, closes, closedAfter := true, false, 0, 0;
    }

    /** Releases the body; the error Close may report is not modelled. */
    method Close()
      modifies this
      ensures !isOpen && closes == old(closes) + 1
      ensures closedAfter == |client.fetched|
      ensures copied == old(copied)
    {
      isOpen, closes := false, closes + 1;
      closedAfter := |client.fetched|;
    }
  }
}
