/** Where a redrive sends messages when its target is named by an ARN. */
module SqsRedrive {
  import opened SqsModel
  import opened Arn
  import opened StringUtils

  function AfterRedriveTo(config: Config, s: Store, queueName: string, maxReceiveCount: int, dlqName: string): Store {
    AfterRedrive(s, CreateSQSQueueUrl(config, queueName), maxReceiveCount,
                 ConvertSQSQueueArnToUrl(config, CreateSQSQueueArn(config, dlqName)))
  }

  lemma TargetReceives(s: Store, queueUrl: string, maxReceiveCount: int, dlqUrl: string, u: string)
    requires u != queueUrl
    ensures OnQueue(AfterRedrive(s, queueUrl, maxReceiveCount, dlqUrl), u)
         == if u == dlqUrl then OnQueue(s, u) + Exhausted(s, queueUrl, maxReceiveCount) else OnQueue(s, u)
  {
  }

  /**
   * The exhausted messages of one queue arrive on the named dead letter queue exactly when its name is nonempty and
   * has no colon and no other SQS host is configured; otherwise that queue gets none of them.
   */
  lemma RedriveArrives(config: Config, s: Store, queueName: string, maxReceiveCount: int, dlqName: string)
    requires ColonFree(config) && queueName != dlqName
    requires Exhausted(s, CreateSQSQueueUrl(config, queueName), maxReceiveCount) != {}
    ensures var queueUrl, dlqUrl := CreateSQSQueueUrl(config, queueName), CreateSQSQueueUrl(config, dlqName);
            var moved := Exhausted(s, queueUrl, maxReceiveCount);
            var after := OnQueue(AfterRedriveTo(config, s, queueName, maxReceiveCount, dlqName), dlqUrl);
            && (after == OnQueue(s, dlqUrl) + moved
                <==> dlqName != "" && Free(dlqName, ':') && SqsHostname(config) == config.hostName)
            && (after == OnQueue(s, dlqUrl) + moved || after == OnQueue(s, dlqUrl))
  {
    var queueUrl, dlqUrl := CreateSQSQueueUrl(config, queueName), CreateSQSQueueUrl(config, dlqName);
    UrlIsInjective(config.region, config.port, config.accountId, config.hostName, config.hostName, queueName, dlqName);
    ArnRoundTrip(config, dlqName);
    TargetReceives(s, queueUrl, maxReceiveCount,
                   ConvertSQSQueueArnToUrl(config, CreateSQSQueueArn(config, dlqName)), dlqUrl);
    var moved := Exhausted(s, queueUrl, maxReceiveCount);
    var k :| k in moved;
    assert k !in OnQueue(s, dlqUrl);
  }

  /** A redrive to another named queue moves every exhausted message, keeps all the rest, and is done after one round. */
  lemma RedriveByArnConserves(config: Config, s: Store, queueName: string, maxReceiveCount: int, dlqName: string)
    requires ColonFree(config) && queueName != dlqName && Free(dlqName, ':')
    ensures var queueUrl := CreateSQSQueueUrl(config, queueName);
            var t := AfterRedriveTo(config, s, queueName, maxReceiveCount, dlqName);
            && t.Keys == s.Keys
            && |OnQueue(t, queueUrl)| == |OnQueue(s, queueUrl)| - |Exhausted(s, queueUrl, maxReceiveCount)|
            && Exhausted(t, queueUrl, maxReceiveCount) == {}
            && AfterRedriveTo(config, t, queueName, maxReceiveCount, dlqName) == t
  {
    OtherArnElsewhere(config, queueName, dlqName);
    RedriveConserves(s, CreateSQSQueueUrl(config, queueName), maxReceiveCount,
                     ConvertSQSQueueArnToUrl(config, CreateSQSQueueArn(config, dlqName)));
  }
}
