/** Queue names, their ARNs and their URLs. */
module Arn {
  import opened StringUtils
  import opened Wrappers

  /** The configuration entries that are read; `sqsHostname` may be missing, `hostName` is the machine's own. */
  datatype Config = Config(region: string, accountId: string, port: string,
                           sqsHostname: Option<string>, hostName: string)

  function CreateArn(service: string, region: string, accountId: string, resourceId: string): string {
    "arn" + ":" + ("aws" + ":" + (service + ":" + (region + ":" + (accountId + ":" + resourceId))))
  }

  function CreateSQSQueueArn(config: Config, queueName: string): string {
    CreateArn("sqs", config.region, config.accountId, queueName)
  }

  function QueueUrl(region: string, hostname: string, port: string, accountId: string, queueName: string): string {
    "http://sqs." + region + "." + hostname + ":" + port + "/" + accountId + "/" + queueName
  }

  /** A queue's own URL always names the machine. */
  function CreateSQSQueueUrl(config: Config, queueName: string): string {
    QueueUrl(config.region, config.hostName, config.port, config.accountId, queueName)
  }

  function SqsHostname(config: Config): string {
    match config.sqsHostname case Some(h) => h case None => config.hostName
  }

  /** The URL converted from an ARN names the configured SQS host; what has too few parts gives the empty string. */
  function ConvertSQSQueueArnToUrl(config: Config, queueArn: string): string {
    var parts := Tokens(queueArn, ':');
    if |parts| < 6 then ""
    else QueueUrl(config.region, SqsHostname(config), config.port, parts[4], parts[5])
  }

  /** What has fewer than six parts is no ARN, and gives the empty string; everything else gives a URL. */
  lemma MalformedArn(config: Config, queueArn: string)
    ensures ConvertSQSQueueArnToUrl(config, queueArn) == "" <==> |Tokens(queueArn, ':')| < 6
  {
  }

  /** The queue URL, with every part in its place. */
  lemma UrlOf(config: Config, queueName: string)
    ensures CreateSQSQueueUrl(config, queueName)
         == "http://sqs." + config.region + "." + config.hostName + ":" + config.port + "/" + config.accountId + "/"
            + queueName
  {
  }

  predicate ColonFree(config: Config) {
    && Free(config.region, ':') && Free(config.accountId, ':')
    && Free(config.hostName, ':') && Free(SqsHostname(config), ':')
  }

  lemma PartsOfArn(config: Config, queueName: string)
    requires ColonFree(config)
    ensures Tokens(CreateSQSQueueArn(config, queueName), ':')
         == ["arn", "aws", "sqs", config.region, config.accountId] + Tokens(queueName, ':')
  {
    var name := config.accountId + ":" + queueName;
    var region := config.region + ":" + name;
    OneField(config.accountId, queueName);
    OneField(config.region, name);
    OneField("sqs", region);
    OneField("aws", "sqs" + ":" + region);
    OneField("arn", "aws" + ":" + ("sqs" + ":" + region));
    Regroup("arn", "aws", "sqs", config.region, config.accountId, Tokens(queueName, ':'));
  }

  lemma Regroup(a: string, b: string, c: string, d: string, e: string, rest: seq<string>)
    ensures [a] + ([b] + ([c] + ([d] + ([e] + rest)))) == [a, b, c, d, e] + rest
  {
  }

  lemma OneField(field: string, rest: string)
    requires Free(field, ':')
    ensures Tokens(field + ":" + rest, ':') == [field] + Tokens(rest, ':')
  {
    TokensOfMore(field, ':', rest);
  }

  /** The converted URL keeps the queue name up to its first colon, and an empty name has none. */
  lemma ConvertedArn(config: Config, queueName: string)
    requires ColonFree(config)
    ensures ConvertSQSQueueArnToUrl(config, CreateSQSQueueArn(config, queueName))
         == if queueName == "" then ""
            else QueueUrl(config.region, SqsHostname(config), config.port, config.accountId,
                          SubStringUntil(queueName, ":"))
  {
    PartsOfArn(config, queueName);
    if queueName != "" {
      FirstToken(queueName, ':');
    }
    TokensOfNothing(queueName, ':');
  }

  lemma UrlIsInjective(region: string, port: string, accountId: string, h: string, g: string, m: string, n: string)
    requires Free(h, ':') && Free(g, ':')
    ensures QueueUrl(region, h, port, accountId, m) == QueueUrl(region, g, port, accountId, n) <==> h == g && m == n
  {
    if QueueUrl(region, h, port, accountId, m) == QueueUrl(region, g, port, accountId, n) {
      var head := "http://sqs." + region + ".";
      var x, y := port + "/" + accountId + "/" + m, port + "/" + accountId + "/" + n;
      assert QueueUrl(region, h, port, accountId, m) == head + (h + [':'] + x);
      assert QueueUrl(region, g, port, accountId, n) == head + (g + [':'] + y);
      SamePrefix(head, h + [':'] + x, g + [':'] + y);
      FirstDelimiterUnique(h, g, ':', x, y);
      SamePrefix(port + "/" + accountId + "/", m, n);
    }
  }

  lemma SamePrefix(prefix: string, x: string, y: string)
    requires prefix + x == prefix + y
    ensures x == y
  {
    assert (prefix + x)[|prefix|..] == x;
    assert (prefix + y)[|prefix|..] == y;
  }

  /** A queue's ARN leads back to its URL exactly for nonempty colon-free names on the configured SQS host. */
  lemma ArnRoundTrip(config: Config, queueName: string)
    requires ColonFree(config)
    ensures ConvertSQSQueueArnToUrl(config, CreateSQSQueueArn(config, queueName)) == CreateSQSQueueUrl(config, queueName)
       <==> queueName != "" && Free(queueName, ':') && SqsHostname(config) == config.hostName
  {
    ConvertedArn(config, queueName);
    var name := SubStringUntil(queueName, ":");
    UrlIsInjective(config.region, config.port, config.accountId, SqsHostname(config), config.hostName, name, queueName);
    UntilIsWhole(queueName, ':');
    UrlIsNonempty(config, queueName);
  }

  lemma UrlIsNonempty(config: Config, queueName: string)
    ensures CreateSQSQueueUrl(config, queueName) != ""
  {
  }

  lemma UntilIsWhole(s: string, c: char)
    ensures SubStringUntil(s, [c]) == s <==> Free(s, c)
  {
    if Free(s, c) {
      FindNoChar(s, c);
    } else {
      SplitAtFirst(s, c);
      var i := IndexOf(s, c);
      FindChar(s[..i], c, s[i + 1..]);
    }
  }

  /** The ARN of another queue never leads to this queue's URL. */
  lemma OtherArnElsewhere(config: Config, queueName: string, other: string)
    requires ColonFree(config) && queueName != other && Free(other, ':')
    ensures ConvertSQSQueueArnToUrl(config, CreateSQSQueueArn(config, other)) != CreateSQSQueueUrl(config, queueName)
  {
    ConvertedArn(config, other);
    FindNoChar(other, ':');
    UrlIsInjective(config.region, config.port, config.accountId, SqsHostname(config), config.hostName, other, queueName);
  }
}
