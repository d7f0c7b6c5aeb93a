/** `S3Database` without a database behind it: every operation ends in the memory store. */
module S3Database {
  import opened S3Model
  import opened StringUtils
  import S3MemoryDb

  class Database {
    const memoryDb: S3MemoryDb.MemoryDb

    constructor (memoryDb: S3MemoryDb.MemoryDb)
      ensures this.memoryDb == memoryDb
    {
      this.memoryDb := memoryDb;
    }

    method CreateOrUpdateBucket(bucket: Bucket, oid: string) returns (result: Bucket)
      modifies memoryDb
      ensures memoryDb.buckets == AfterCreateOrUpdate(old(memoryDb.buckets), bucket, oid)
      ensures result == if Holders(old(memoryDb.buckets), bucket.region, bucket.name) != {}
                        then bucket else bucket.(oid := oid)
    {
      var exists_ := memoryDb.BucketExists(bucket.region, bucket.name);
      if exists_ {
        result := memoryDb.UpdateBucket(bucket);
      } else {
        result := memoryDb.CreateBucket(bucket, oid);
      }
    }

    /** The new notifications replace all earlier ones. */
    method CreateBucketNotification(bucket: Bucket, bucketNotification: Notification) returns (result: Bucket)
      requires var b := Found(memoryDb.buckets, bucket.region, bucket.name);
               Holders(memoryDb.buckets, b.region, b.name) != {}
      modifies memoryDb
      ensures memoryDb.buckets
           == AfterCreateNotification(old(memoryDb.buckets), bucket.region, bucket.name, bucketNotification)
      ensures result == Found(old(memoryDb.buckets), bucket.region, bucket.name)
                        .(notifications := NotificationsFor(bucketNotification, ConcreteEvents(bucketNotification.event)))
    {
      ghost var before := memoryDb.buckets;
      var internBucket := memoryDb.GetBucketByRegionName(bucket.region, bucket.name);
      var notifications: seq<Notification> := [];
      if Contains(bucketNotification.event, "*") {
        var allowedEvents := [];
        if StartsWith(bucketNotification.event, "s3:ObjectCreated:") {
          allowedEvents := CREATED_EVENTS;
        } else if StartsWith(bucketNotification.event, "s3:ObjectRemoved:") {
          allowedEvents := DELETED_EVENTS;
        }
        for i := 0 to |allowedEvents|
          invariant notifications == NotificationsFor(bucketNotification, allowedEvents[..i])
        {
          var notification := Notification(allowedEvents[i], bucketNotification.notificationId,
                                           bucketNotification.queueArn, bucketNotification.lambdaArn);
          notifications := notifications + [notification];
        }
        assert allowedEvents[..|allowedEvents|] == allowedEvents;
      } else {
        notifications := notifications + [bucketNotification];
      }
      assert notifications == NotificationsFor(bucketNotification, ConcreteEvents(bucketNotification.event));
      LookupKeepsHolders(before, bucket.region, bucket.name, internBucket.region, internBucket.name);
      internBucket := internBucket.(notifications := notifications);
      result := memoryDb.UpdateBucket(internBucket);
    }

    method DeleteBucketNotifications(bucket: Bucket, bucketNotification: Notification) returns (result: Bucket)
      requires var b := Found(memoryDb.buckets, bucket.region, bucket.name);
               Holders(memoryDb.buckets, b.region, b.name) != {}
      modifies memoryDb
      ensures memoryDb.buckets
           == AfterDeleteNotifications(old(memoryDb.buckets), bucket.region, bucket.name, bucketNotification.event)
      ensures var b := Found(old(memoryDb.buckets), bucket.region, bucket.name);
              var events := ConcreteEvents(bucketNotification.event);
              result == b.(notifications := WithoutAll(b.notifications, events, |events|))
    {
      ghost var before := memoryDb.buckets;
      var internBucket := memoryDb.GetBucketByRegionName(bucket.region, bucket.name);
      ghost var first := internBucket.notifications;
      var notifications := internBucket.notifications;
      if Contains(bucketNotification.event, "*") {
        var allowedEvents := [];
        if StartsWith(bucketNotification.event, "s3:ObjectCreated:") {
          allowedEvents := CREATED_EVENTS;
        } else if StartsWith(bucketNotification.event, "s3:ObjectRemoved:") {
          allowedEvents := DELETED_EVENTS;
        }
        for i := 0 to |allowedEvents|
          invariant notifications == WithoutAll(first, allowedEvents, i)
        {
          notifications := Without(notifications, allowedEvents[i]);
        }
      } else {
        notifications := Without(notifications, bucketNotification.event);
        assert notifications == WithoutAll(first, [bucketNotification.event], 1);
      }
      LookupKeepsHolders(before, bucket.region, bucket.name, internBucket.region, internBucket.name);
      internBucket := internBucket.(notifications := notifications);
      result := memoryDb.UpdateBucket(internBucket);
    }
  }
}
