/** Bucket and key of an S3 request, which may stand in the path or in the host name. */
module S3Address {
  import opened StringUtils
  import opened HttpUtils
  import opened Wrappers

  /** The parts of a request that are read; a request may come without a host. */
  datatype Request = Request(host: Option<string>, target: string)

  predicate IsS3HostStyle(request: Request) {
    match request.host case Some(host) => Contains(host, ".s3.") case None => false
  }

  function GetS3HostStyleBucket(request: Request): string {
    match request.host case Some(host) => SubStringUntil(host, ".") case None => ""
  }

  function GetS3PathStyleBucket(decode: Decoder, request: Request): string {
    GetPathParameter(decode, request.target, 0)
  }

  function GetS3HostStyleObjectKey(decode: Decoder, request: Request): string {
    GetPathParametersFromIndex(decode, request.target, 0)
  }

  function GetS3PathStyleObjectKey(decode: Decoder, request: Request): string {
    GetPathParametersFromIndex(decode, request.target, 1)
  }

  function GetS3BucketName(decode: Decoder, request: Request): string {
    if IsS3HostStyle(request) then GetS3HostStyleBucket(request) else GetS3PathStyleBucket(decode, request)
  }

  function GetS3ObjectKey(decode: Decoder, request: Request): string {
    if IsS3HostStyle(request) then GetS3HostStyleObjectKey(decode, request) else GetS3PathStyleObjectKey(decode, request)
  }

  predicate IsPlainPath(path: string) {
    IsPlain(path) && '?' !in path
  }

  /** A path-style request gives the bucket, and the key exactly when that does not end in a slash. */
  lemma PathStyleAddress(decode: Decoder, host: Option<string>, bucket: string, key: string, tail: string)
    requires KeepsPlain(decode) && IsPlainPath(bucket) && Free(bucket, '/') && IsPlainPath(key) && IsTail(tail)
    requires host.Some? ==> !Contains(host.value, ".s3.")
    ensures var request := Request(host, "/" + bucket + "/" + key + tail);
            && GetS3BucketName(decode, request) == bucket
            && GetS3ObjectKey(decode, request) == DropTrailing(key, '/')
            && (GetS3ObjectKey(decode, request) == key <==> key == "" || key[|key| - 1] != '/')
  {
    FirstSegmentAndRest(decode, bucket, key, tail);
  }

  lemma VirtualHost(bucket: string, domain: string)
    ensures Contains(bucket + ".s3." + domain, ".s3.")
    ensures SubStringUntil(bucket + ".s3." + domain, ".") == bucket <==> Free(bucket, '.')
    ensures !Free(bucket, '.') ==> |SubStringUntil(bucket + ".s3." + domain, ".")| < |bucket|
  {
    var host := bucket + ".s3." + domain;
    assert host[|bucket|..|bucket| + 4] == ".s3.";
    assert OccursAt(host, ".s3.", |bucket|);
    if Free(bucket, '.') {
      assert host == bucket + ['.'] + ("s3." + domain);
      FindChar(bucket, '.', "s3." + domain);
    } else {
      var i := IndexOf(bucket, '.');
      assert host == bucket[..i] + ['.'] + (bucket[i + 1..] + ".s3." + domain);
      FindChar(bucket[..i], '.', bucket[i + 1..] + ".s3." + domain);
    }
  }

  /** A host-style request gives the bucket exactly when that has no dot, and the key as in path style. */
  lemma HostStyleAddress(decode: Decoder, bucket: string, domain: string, key: string, tail: string)
    requires KeepsPlain(decode) && IsPlainPath(key) && IsTail(tail)
    ensures var request := Request(Some(bucket + ".s3." + domain), "/" + key + tail);
            && (GetS3BucketName(decode, request) == bucket <==> Free(bucket, '.'))
            && GetS3ObjectKey(decode, request) == DropTrailing(key, '/')
  {
    VirtualHost(bucket, domain);
    WholePath(decode, key, tail);
  }

  /** The two ways of addressing an object agree on it exactly when the bucket has no dot in its name. */
  lemma StylesAgree(decode: Decoder, host: Option<string>, domain: string, bucket: string, key: string, tail: string)
    requires KeepsPlain(decode) && IsPlainPath(bucket) && Free(bucket, '/') && IsPlainPath(key) && IsTail(tail)
    requires host.Some? ==> !Contains(host.value, ".s3.")
    ensures var byPath := Request(host, "/" + bucket + "/" + key + tail);
            var byHost := Request(Some(bucket + ".s3." + domain), "/" + key + tail);
            && GetS3ObjectKey(decode, byPath) == GetS3ObjectKey(decode, byHost)
            && (GetS3BucketName(decode, byPath) == GetS3BucketName(decode, byHost) <==> Free(bucket, '.'))
  {
    PathStyleAddress(decode, host, bucket, key, tail);
    HostStyleAddress(decode, bucket, domain, key, tail);
  }
}
