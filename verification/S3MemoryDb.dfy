/** `S3MemoryDb`: buckets keyed by a random identifier and searched one by one. */
module S3MemoryDb {
  import opened Orders
  import opened S3Model
  import opened Wrappers

  class MemoryDb {
    var buckets: Store

    constructor ()
      ensures buckets == map[]
    {
      buckets := map[];
    }

    /** `find_if` over the map: the first key, in the order of keys, that holds the bucket. */
    method FindBucket(region: string, name: string) returns (it: Option<string>)
      ensures it == if Holders(buckets, region, name) == {} then None
                    else Some(FirstHolder(buckets, region, name))
    {
      var ks := Iterate(buckets.Keys);
      ghost var holders := Holders(buckets, region, name);
      for i := 0 to |ks|
        invariant forall j :: 0 <= j < i ==> ks[j] !in holders
      {
        assert ks[i] in ks;
        if buckets[ks[i]].region == region && buckets[ks[i]].name == name {
          FirstOfIteration(ks, i, holders);
          FirstIsUnique(holders, ks[i], FirstHolder(buckets, region, name));
          return Some(ks[i]);
        }
      }
      assert holders == {};
      return None;
    }

    method BucketExists(region: string, name: string) returns (found: bool)
      ensures found <==> Holders(buckets, region, name) != {}
    {
      var it := FindBucket(region, name);
      return it.Some?;
    }

    method GetBucketById(oid: string) returns (result: Bucket)
      modifies this
      ensures oid in old(buckets) ==>
                result == old(buckets)[oid].(oid := oid) && buckets == old(buckets)[oid := result]
      ensures oid !in old(buckets) ==> result == EMPTY_BUCKET && buckets == old(buckets)
    {
      if oid in buckets {
        buckets := buckets[oid := buckets[oid].(oid := oid)];
        return buckets[oid];
      }
      return EMPTY_BUCKET;
    }

    method GetBucketByRegionName(region: string, name: string) returns (result: Bucket)
      modifies this
      ensures result == Found(old(buckets), region, name)
      ensures buckets == AfterLookup(old(buckets), region, name)
    {
      var it := FindBucket(region, name);
      if it.Some? {
        buckets := buckets[it.value := buckets[it.value].(oid := it.value)];
        return buckets[it.value];
      }
      return EMPTY_BUCKET;
    }

    method CreateBucket(bucket: Bucket, oid: string) returns (result: Bucket)
      modifies this
      ensures buckets == AfterCreate(old(buckets), bucket, oid) && result == bucket.(oid := oid)
    {
      buckets := buckets[oid := bucket];
      result := GetBucketById(oid);
    }

    method BucketCount() returns (count: int)
      ensures count == |buckets|
    {
      return |buckets|;
    }

    /** The source goes on past the end of the map if the bucket is not there. */
    method UpdateBucket(bucket: Bucket) returns (result: Bucket)
      requires Holders(buckets, bucket.region, bucket.name) != {}
      modifies this
      ensures buckets == AfterUpdate(old(buckets), bucket) && result == bucket
    {
      var it := FindBucket(bucket.region, bucket.name);
      buckets := buckets[it.value := bucket];
      return buckets[it.value];
    }

    method DeleteBucket(bucket: Bucket)
      modifies this
      ensures buckets == AfterDelete(old(buckets), bucket.region, bucket.name)
    {
      buckets := map k | k in buckets && !(buckets[k].region == bucket.region && buckets[k].name == bucket.name)
                     :: buckets[k];
    }
  }
}
