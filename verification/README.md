# AWS mock: message store, signatures, strings and buckets

A Dafny model of the parts of the AWS mock whose behaviour spans many calls, and proofs about them:

* **The SQS message store.** `SqsMemoryDb` has the locked operations of the in-memory store as methods of a class over
  a map; each is proved equal to an effect on the store value that `SqsModel` defines. `SqsHistory` strings those
  effects together to runs under a clock that never goes back, with fresh oids and receipt handles, and keeps the
  history of every message beside the store. `SqsTheorems` proves what holds in every reachable state and over every
  run: the visibility window excludes a second delivery, receipt handles name exactly one delivery and messages are
  conserved. `SqsDeliveries` has the exact condition of the delivery bound: it holds for a run if and only if no receive
  from the queue takes a message whose retry counter is above the limit, and a redrive after every reset is enough for
  that. The repository layer resets before every receive without a redrive in between, which defeats the condition even
  if the worker redrives before every receive; `SqsRepository` proves that with a family of runs for every limit and
  visibility timeout. `SqsIdentity` adds lookups and updates to the runs and proves that the identity of messages
  survives them. `SqsTiming` says exactly when resets and redrives act, in terms of the history of a message, and
  `SqsTightness` that the delivery bound is reached for every limit. `SqsRedrive` and `Arn` say where a redrive sends messages when its target is an ARN.
* **Signature Version 4.** `AwsSignature` writes the `Authorization` header into a mutable request and checks it there;
  `AuthorizationHeader` models the regular expression as the greedy, leftmost matcher it denotes and proves it sound and
  complete for its language. `SignatureTheorems` proves when signed requests are accepted: if the written header
  is read back, the secret and the clock second are the same and the authorization is not itself signed, and only then,
  unless a collision of the hash functions is at hand. That the parts have the form of the pattern is enough for the
  header to be read back, but not needed. Two requests accepted under one header say the same in every signed part, again
  up to a collision. SHA-256 and HMAC are uninterpreted.
* **Strings, paths and queries.** `StringUtils`, `Replace`, `HttpUtils`, `CanonicalQuery`, `S3Address` and `Hex` prove
  round trips with their exact conditions.
* **The S3 bucket store.** `S3MemoryDb` and `S3Database` have the searched, randomly keyed store and the notification
  calls; `S3Refinement` proves that every run of it is a run of a plain map from region and name, and `S3Theorems` has
  the algebra of notifications.

`Orders` is the order in which a `std::map` is traversed, `Wrappers` an option type, `SizeT` the range of `size_t`. A `std::map` is a Dafny map that
loops traverse in ascending key order; the lock makes each operation one step. Clock readings, generated identifiers and
receipt handles, configuration entries, URL coding and the hash functions are parameters.

The code and its documentation differ in places, and the model follows the code: `Join` ignores its delimiter and writes
slashes; `SubStringAfter` skips one character, whatever the length of its delimiter; `Ltrim` trims on the right and
`Rtrim` on the left; the sizing pass of `Replace` counts one match too many; an ARN with too few parts becomes the empty
URL, so a redrive to it strands its messages there; a notification for a bucket that does not exist goes to the bucket
without region and name. Where the code would run into undefined behaviour (an update of what is not stored, a query
token without a value, an empty `Authorization` header, an empty replace pattern) the method has a precondition that
excludes just that.

In the regular expression `.` is taken to exclude the line feed only, as the library's default has it.

## Model

| member | source | states |
|---|---|---|
| Orders.Iterate | src/db/src/memorydb/SQSMemoryDb.cpp:268 | a loop over a map meets each key once, in ascending order |
| Orders.LessIsLexicographic | src/core/src/utils/AwsUtils.cpp:257 | the order of keys is decided by the first character where they differ, the smaller one first, and a prefix comes first |
| Orders.FirstDifferenceDecides | src/core/src/utils/AwsUtils.cpp:257 | the same, for given strings: whatever follows the first differing characters |
| SqsMemoryDb.SQSMemoryDb.CreateMessage | src/db/src/memorydb/SQSMemoryDb.cpp:179-187 | a new entry whose oid is its key; nothing else changes |
| SqsMemoryDb.SQSMemoryDb.GetMessageById | src/db/src/memorydb/SQSMemoryDb.cpp:198-210 | finds the entry and writes the key into it, or gives the empty message |
| SqsMemoryDb.SQSMemoryDb.GetMessageByReceiptHandle | src/db/src/memorydb/SQSMemoryDb.cpp:212-226 | the first entry in key order that holds the handle, with its key written into it |
| SqsMemoryDb.SQSMemoryDb.UpdateMessage | src/db/src/memorydb/SQSMemoryDb.cpp:228-238 | overwrites the first entry that carries the oid, and no other |
| SqsMemoryDb.SQSMemoryDb.ReceiveMessages | src/db/src/memorydb/SQSMemoryDb.cpp:262-291 | appends the taken messages to the caller's list and makes exactly those invisible |
| SqsMemoryDb.SQSMemoryDb.HandOutAll | src/db/src/memorydb/SQSMemoryDb.cpp:268-288 | the loop hands out eligible messages in key order and stops when the list is full |
| SqsMemoryDb.SQSMemoryDb.HandOut | src/db/src/memorydb/SQSMemoryDb.cpp:270-286 | one round: the receiver's copy keeps the old status and reset time, the store gets the new ones |
| SqsMemoryDb.SQSMemoryDb.ResetMessages | src/db/src/memorydb/SQSMemoryDb.cpp:293-312 | every invisible message of the queue whose reset time has passed becomes initial and loses its handle |
| SqsMemoryDb.SQSMemoryDb.ResetDelayedMessages | src/db/src/memorydb/SQSMemoryDb.cpp:333-350 | every delayed message of the queue whose time has come becomes initial |
| SqsMemoryDb.SQSMemoryDb.RedriveMessages | src/db/src/memorydb/SQSMemoryDb.cpp:314-331 | every initial message above the receive count moves to the URL of the target ARN with retries 0 |
| SqsMemoryDb.SQSMemoryDb.CountMessages | src/db/src/memorydb/SQSMemoryDb.cpp:369-404 | counts with an empty region or URL matching everything |
| SqsMemoryDb.SQSMemoryDb.CountMessagesByStatus | src/db/src/memorydb/SQSMemoryDb.cpp:406-418 | counts with an empty region or URL matching only the empty string |
| SqsMemoryDb.SQSMemoryDb.PurgeQueue | src/db/src/memorydb/SQSMemoryDb.cpp:117-125 | removes exactly the messages of that region and queue |
| SqsMemoryDb.SQSMemoryDb.DeleteMessages | src/db/src/memorydb/SQSMemoryDb.cpp:420-429 | removes exactly the messages of that queue |
| SqsMemoryDb.SQSMemoryDb.DeleteMessage | src/db/src/memorydb/SQSMemoryDb.cpp:442-450 | removes exactly the messages that hold the handle |
| SqsMemoryDb.SQSMemoryDb.DeleteAllMessages | src/db/src/memorydb/SQSMemoryDb.cpp:452-457 | leaves an empty store |
| SqsModel.ReceiveIsExact | src/db/src/memorydb/SQSMemoryDb.cpp:262-288 | a receive takes the first min(E, max(1, m - L)) of the initial messages of region and queue in key order, or all for a negative m; they stop being eligible, and all others stay |
| SqsModel.EmptyMatchesAll | src/db/src/memorydb/SQSMemoryDb.cpp:373-401 | both arguments empty count everything, one empty argument leaves the other to decide |
| SqsModel.SnapshotAgrees | src/db/src/memorydb/SQSMemoryDb.cpp:272-280 | the receiver's copy has the stored counter and handle but the old status and reset time |
| SqsModel.RedriveConserves | src/db/src/memorydb/SQSMemoryDb.cpp:314-331 | keys, bodies and states stay, k messages change sides, none above the count is left, a second redrive does nothing |
| SqsModel.SelfRedriveForgives | src/db/src/memorydb/SQSMemoryDb.cpp:314-331 | redriving a queue into itself moves nothing and sets every exhausted counter back |
| SqsModel.StatusCountsSum | src/db/src/memorydb/SQSMemoryDb.cpp:369-418 | the per-status counts add up to the count exactly when no message is counted through an empty argument only |
| SqsHistory.HandlesStayDistinct | src/db/src/memorydb/SQSMemoryDb.cpp:262-312 | no step makes two messages hold one non-empty handle |
| SqsHistory.StepKeepsSafe | src/db/src/memorydb/SQSMemoryDb.cpp:179-457 | every step keeps the invariant of store, histories, handles and clock |
| SqsHistory.RunKeepsSafe | src/db/src/memorydb/SQSMemoryDb.cpp:179-457 | so does every run |
| SqsTheorems.VisibilityIsExclusive | src/db/src/memorydb/SQSMemoryDb.cpp:262-350 | two deliveries of one message are further apart than the window of the earlier one, on whatever queues |
| SqsTheorems.WindowBlocksReceive | src/db/src/memorydb/SQSMemoryDb.cpp:262-350 | up to and including the end of a window no receive takes the message |
| SqsTheorems.RetriesCountReceives | src/db/src/memorydb/SQSMemoryDb.cpp:262-331 | the retry counter is the number of receives since creation or the last redrive |
| SqsTheorems.HandleIsExact | src/db/src/memorydb/SQSMemoryDb.cpp:189-226 | an issued handle finds and deletes exactly its message while that delivery is the live one, and nothing afterwards |
| SqsTheorems.StaleHandleStaysDead | src/db/src/memorydb/SQSMemoryDb.cpp:442-450 | a used handle that nobody holds is never held again, over every further run |
| SqsTheorems.StoreIsConserved | src/db/src/memorydb/SQSMemoryDb.cpp:179-187 | the store is what was created and not removed, each under its own oid |
| SqsTheorems.CreateIsExact | src/db/src/memorydb/SQSMemoryDb.cpp:179-187 | the new entry is the message with its key as oid, and every other entry stays |
| SqsTheorems.ReceiveIsSelective | src/db/src/memorydb/SQSMemoryDb.cpp:268-288 | what a receive changes was initial on its region and queue, and becomes invisible with one more retry, the issued handle and a window |
| SqsTheorems.RemovalIsExact | src/db/src/memorydb/SQSMemoryDb.cpp:420-457 | which entries the deletes and the purge keep, field by field, and that they keep them as they were |
| SqsTiming.DelayIsKept | src/db/src/memorydb/SQSMemoryDb.cpp:333-350 | over every run, a message created delayed is handed out only after its reset time |
| SqsTiming.DelayEndsExactly | src/db/src/memorydb/SQSMemoryDb.cpp:333-350 | it becomes initial exactly when its queue is reset after the reset time it was created with |
| SqsTiming.WindowEndsExactly | src/db/src/memorydb/SQSMemoryDb.cpp:293-312 | a message in flight becomes initial, without handle, exactly when its queue is reset after the end of its window |
| SqsTiming.ResetsLeaveOthers | src/db/src/memorydb/SQSMemoryDb.cpp:293-350 | the two resets touch nothing but invisible and delayed messages |
| SqsTiming.RedriveIsExact | src/db/src/memorydb/SQSMemoryDb.cpp:314-331 | a redrive moves, with a fresh counter, exactly the initial messages of the queue with more than maxReceiveCount receives since creation or the last redrive |
| SqsTightness.BoundIsReached | src/db/src/memorydb/SQSMemoryDb.cpp:314-331 | for every limit there is a run, with a redrive after every reset, in which one stay sees exactly maxReceiveCount + 1 deliveries |
| SqsTheorems.DeleteIsExact | src/db/src/memorydb/SQSMemoryDb.cpp:442-450 | a delete by a handle removes at most one message; which messages the empty handle removes: of those ever handed out, exactly the ones not in flight |
| SqsIdentity.OidIsKey | src/db/src/memorydb/SQSMemoryDb.cpp:179-238 | after every run, updates and lookups included, every oid is its key, the store is what was created and not removed, and an update of a stored oid hits its entry and no other |
| SqsIdentity.LookupsKeepSafe | src/db/src/memorydb/SQSMemoryDb.cpp:198-226 | the lookups, which write the key into what they find, change nothing in a reachable state |
| SqsDeliveries.StaysAreBoundedExactly | src/db/src/memorydb/SQSMemoryDb.cpp:262-331 | no stay on a queue, dead letter queue or not, sees more than maxReceiveCount + 1 deliveries if and only if no receive from it takes a message above the limit |
| SqsDeliveries.DeliveriesAreBoundedExactly | src/db/src/memorydb/SQSMemoryDb.cpp:262-331 | the same counted over all time, for a queue that nothing is redriven to and messages created with counter 0 |
| SqsDeliveries.DeliveriesAreBounded | src/db/src/memorydb/SQSMemoryDb.cpp:293-331 | a redrive after every reset before the next receive is enough for both bounds |
| SqsRepository.RepositoryReceiveIsUnbounded | src/db/src/repository/SQSDatabase.cpp:554-611 | for every number of rounds, limit and visibility timeout there is a run in which every receive through the repository hands the message out again |
| SqsRedrive.RedriveArrives | src/db/src/memorydb/SQSMemoryDb.cpp:314-331 | exhausted messages reach the named queue exactly for a non-empty colon-free name on the machine's own SQS host |
| SqsRedrive.RedriveByArnConserves | src/db/src/memorydb/SQSMemoryDb.cpp:314-331 | a redrive by the ARN of another queue empties the source of exhausted messages, loses none and is done after one round |
| Arn.PartsOfArn | src/core/include/awsmock/core/AwsUtils.h:510-512 | an ARN splits into its fields, of which the name may be several or none |
| Arn.ConvertedArn | src/core/src/utils/AwsUtils.cpp:17-35 | the URL keeps the queue name up to its first colon; an empty name gives the empty string |
| Arn.MalformedArn | src/core/src/utils/AwsUtils.cpp:20-24 | fewer than six parts give the empty string, and nothing else does |
| Arn.UrlOf | src/core/include/awsmock/core/AwsUtils.h:522-530 | the queue URL with every part in its place |
| Arn.ArnRoundTrip | src/core/include/awsmock/core/AwsUtils.h:522-543 | the ARN of a queue leads back to its URL exactly for non-empty colon-free names on the machine's own SQS host |
| Arn.OtherArnElsewhere | src/core/src/utils/AwsUtils.cpp:17-35 | the ARN of another queue never leads to this queue's URL |
| Arn.UrlIsInjective | src/core/include/awsmock/core/AwsUtils.h:522-530 | equal URLs have equal hosts and queue names |
| StringUtils.Find | src/core/src/utils/StringUtils.cpp:138-140 | the first occurrence, or none if there is none |
| StringUtils.AbsentDelimiter | src/core/src/utils/StringUtils.cpp:174-186 | an absent delimiter leaves everything before it and nothing behind it |
| StringUtils.EmptyEqualsNothing | src/core/src/utils/StringUtils.cpp:123-128 | the empty string equals nothing, not even itself |
| StringUtils.TrimRemovesBlanks | src/core/include/awsmock/core/StringUtils.h:248-274 | blanks on both sides are removed, and nothing else |
| StringUtils.HalvesRebuildIffOneChar | src/core/src/utils/StringUtils.cpp:174-186 | the two substrings and the delimiter rebuild the string exactly when the delimiter has one character |
| StringUtils.GetLine | src/core/src/utils/StringUtils.cpp:83-85 | one `getline`: the text up to the delimiter and what is left behind it |
| StringUtils.Split | src/core/src/utils/StringUtils.cpp:80-88 | the loop gives the tokens, with no empty token behind a trailing delimiter |
| StringUtils.Join | src/core/src/utils/StringUtils.cpp:90-99 | the loop joins the tokens from the start index by slashes |
| StringUtils.JoinHonoursDelimiter | src/core/src/utils/StringUtils.cpp:90-99 | the delimiter asked for is the one written exactly when it is a slash or nothing is to be separated |
| StringUtils.JoinOfSplit | src/core/src/utils/StringUtils.cpp:80-99 | splitting and joining loses exactly one trailing delimiter |
| StringUtils.SplitOfJoin | src/core/src/utils/StringUtils.cpp:80-99 | joining and splitting loses exactly a last empty token |
| StringUtils.SplitUndoesJoin | src/core/src/utils/StringUtils.cpp:80-99 | which token lists survive: delimiter-free and empty or ending in a non-empty token, and no others |
| StringUtils.JoinIsInjective | src/core/src/utils/StringUtils.cpp:90-99 | a join of delimiter-free fields determines them |
| Replace.PiecesAreLeftmost | src/core/src/utils/StringUtils.cpp:217-231 | the scan cuts at non-overlapping matches, each leftmost, and the last piece has none |
| Replace.ReplacedLength | src/core/src/utils/StringUtils.cpp:210 | the result has length orilen + n * (replen - patlen) |
| Replace.RoomSuffices | src/core/src/utils/StringUtils.cpp:199-212 | the request leaves room for the result exactly in three cases, in wrapping size arithmetic |
| Replace.CountPass | src/core/src/utils/StringUtils.cpp:199-207 | the sizing pass counts one match too many, unless there is none |
| Replace.FillPass | src/core/src/utils/StringUtils.cpp:217-231 | the fill pass writes the left-to-right replacement and its terminator from the start of the buffer, and nothing else |
| Replace.Replace | src/core/src/utils/StringUtils.cpp:194-234 | both passes together, with every write inside what was requested |
| HttpUtils.BasePathOf | src/core/src/utils/HttpUtils.cpp:10-16 | the base path is the path without its first slash and without the query |
| HttpUtils.PathParameterIsDecoded | src/core/src/utils/HttpUtils.cpp:18-30 | a path parameter is the decoded segment, or the empty string past the last one |
| HttpUtils.SegmentsAreDecoded | src/core/src/utils/HttpUtils.cpp:18-37 | first segment and rest come back decoded, whatever they are coded as |
| HttpUtils.WholePath | src/core/src/utils/HttpUtils.cpp:32-37 | from index 0 the whole path comes back, but for one trailing slash |
| HttpUtils.FirstSegmentAndRest | src/core/src/utils/HttpUtils.cpp:18-37 | the first segment and the rest come back, however many or empty segments the rest has |
| HttpUtils.ValueIsDecoded | src/core/src/utils/HttpUtils.cpp:79-93 | the value is the decoded part between the first equals sign and the second one, if any |
| HttpUtils.FormIsRead | src/core/src/utils/HttpUtils.cpp:52-57 | without a question mark the whole string is read, as a form body: count, names and first values; the map of parameters stays empty |
| HttpUtils.LaterPairWins | src/core/src/utils/HttpUtils.cpp:111-126 | of several parameters of one name the map keeps the last |
| HttpUtils.GetQueryParameterValueByName | src/core/src/utils/HttpUtils.cpp:128-139 | the value of the first token of that name, or the empty string |
| HttpUtils.HasQueryParameter | src/core/src/utils/HttpUtils.cpp:163-173 | whether there is such a token |
| HttpUtils.GetQueryParameters | src/core/src/utils/HttpUtils.cpp:111-126 | the loop enters every pair, later ones over earlier ones; nothing without a question mark |
| HttpUtils.AddQueryDelimiter | src/core/src/utils/HttpUtils.cpp:193-196 | appends an ampersand exactly if the caller's string has a question mark, and else a question mark; what that builds is `BuildIsJoin` |
| HttpUtils.AddQueryParameter | src/core/src/utils/HttpUtils.cpp:181-185 | appends the delimiter and the pair to the caller's string |
| HttpUtils.BuildIsJoin | src/core/src/utils/HttpUtils.cpp:181-196 | folding the builder over pairs gives the base, a question mark and the pairs joined by ampersands |
| HttpUtils.BuiltIsRead | src/core/src/utils/HttpUtils.cpp:128-196 | what was built is read back for any coding of the values: the count, exactly those names, and for each its first value, decoded |
| HttpUtils.BuilderRoundTrip | src/core/src/utils/HttpUtils.cpp:128-196 | with plain values what was built is read back as it is |
| HttpUtils.DistinctNamesFindTheirValue | src/core/src/utils/HttpUtils.cpp:128-139 | with distinct names the first value is the one added under the name |
| CanonicalQuery.GetCanonicalQueryParameters | src/core/src/utils/AwsUtils.cpp:251-268 | the loop and its last `pop_back` give the parameters joined by ampersands in the order of their names |
| CanonicalQuery.RenderedParses | src/core/src/utils/HttpUtils.cpp:111-126 | a query with distinct names is read as exactly its pairs |
| CanonicalQuery.CanonicalReparse | src/core/src/utils/AwsUtils.cpp:251-268 | reading the canonical query back works exactly when no value is empty, and gives the same map and canonical query |
| CanonicalQuery.CanonicalIsSorted | src/core/src/utils/AwsUtils.cpp:251-268 | its tokens are exactly the pairs, each name before the next at the first character where they differ; no trailing ampersand; empty only for no parameters |
| CanonicalQuery.CanonicalIgnoresOrder | src/core/src/utils/AwsUtils.cpp:251-268 | every permutation of the parameters, behind whatever path, has the same canonical query |
| S3Address.PathStyleAddress | src/core/src/utils/AwsUtils.cpp:81-123 | path style gives the bucket, and the key exactly when that does not end in a slash |
| S3Address.HostStyleAddress | src/core/src/utils/AwsUtils.cpp:97-119 | host style gives the bucket exactly when that has no dot, and the key as path style does |
| S3Address.StylesAgree | src/core/src/utils/AwsUtils.cpp:81-123 | the two styles agree on an object exactly when its bucket has no dot |
| Hex.HexEncode | src/core/src/utils/CryptoUtils.cpp:641-646 | stream formatting writes the base-16 text |
| Hex.HexEncodeDigest | src/core/src/utils/CryptoUtils.cpp:648-657 | so does the table |
| Hex.ToHexString | src/core/src/utils/StringUtils.cpp:271-277 | so does `ToHexString` |
| Hex.HighHalfFirst | src/core/src/utils/CryptoUtils.cpp:641-657 | the sixteen digits of section 8 of RFC 4648, in lower case, the high half of a byte first |
| Hex.EncodedAt | src/core/src/utils/CryptoUtils.cpp:641-657 | the two digits of byte i stand at 2 i |
| Hex.DecodeInvertsEncode | src/core/src/utils/CryptoUtils.cpp:641-657 | a base-16 decoder after section 8 of RFC 4648 gives the bytes back |
| Hex.EncodeInvertsDecode | src/core/src/utils/CryptoUtils.cpp:641-657 | whatever decodes is the encoding of its bytes up to the case of the digits |
| AuthorizationHeader.ClassMembers | src/core/src/utils/AwsUtils.cpp:310 | the members of the three character classes by their codes |
| AuthorizationHeader.MatchedIffText | src/core/src/utils/AwsUtils.cpp:310-311 | the pattern matches at the start of a string exactly if that is a text of its language |
| AuthorizationHeader.TextMatches | src/core/src/utils/AwsUtils.cpp:310-311 | every text of the pattern's language is matched; the signed headers are taken as long as possible |
| AuthorizationHeader.MatchedIsText | src/core/src/utils/AwsUtils.cpp:310-325 | whatever is matched is a text of the language with the groups found |
| AuthorizationHeader.MatchIsLeftmost | src/core/src/utils/AwsUtils.cpp:310-311 | the match starts at the first place where a text of the language can |
| AwsSignature.HttpRequest.AddAuthorizationHeader | src/core/src/utils/AwsUtils.cpp:125-150 | the request gets the mandatory headers and then the authorization over exactly those |
| AwsSignature.HttpRequest.VerifySignature | src/core/src/utils/AwsUtils.cpp:183-196 | accepts exactly when signing with the keys read from the header gives the signature read from it |
| AwsSignature.HttpRequest.GetCanonicalHeaders | src/core/src/utils/AwsUtils.cpp:270-281 | a line for every signed header that the request has, in the order of the list |
| AwsSignature.HttpRequest.GetCanonicalRequest | src/core/src/utils/AwsUtils.cpp:198-208 | method, encoded target, canonical query, header lines, signed headers and payload hash |
| AwsSignature.SignedFields | src/core/src/utils/AwsUtils.cpp:125-150 | which headers a signing sets, and to what; every other field and all else stays |
| AwsSignature.PresentInOrder | src/core/src/utils/AwsUtils.cpp:270-281 | headers that are there are listed in the order of the signed names, with trimmed values |
| AwsSignature.AbsentIsSkipped | src/core/src/utils/AwsUtils.cpp:270-281 | headers that are not there are left out |
| AwsSignature.GetSignature | src/core/src/utils/AwsUtils.cpp:332-339 | the chain of keyed hashes over date, region, module and version, used on the string to sign |
| SignatureTheorems.SignatureDetermines | src/core/src/utils/AwsUtils.cpp:332-339 | a signature determines secret, date, region, module, version and string to sign, or one of the five keyed hashes takes two argument pairs to one value |
| SignatureTheorems.CanonicalReadsBack | src/core/src/utils/AwsUtils.cpp:198-208 | the lines of a canonical request, one by one |
| SignatureTheorems.StringToSignReadsBack | src/core/src/utils/AwsUtils.cpp:222-230 | the four lines of a string to sign |
| SignatureTheorems.ScopeReadsBack | src/core/src/utils/AwsUtils.cpp:139-141 | the scope is date, region, module and version in this order |
| SignatureTheorems.SignableParts | src/core/src/utils/AwsUtils.cpp:310 | which parts have the form of the pattern, by length and character codes |
| SignatureTheorems.KeysAreRead | src/core/src/utils/AwsUtils.cpp:300-330 | the keys read from any request: none without a match, and the clock only without a date field |
| SignatureTheorems.WrittenIsMatched | src/core/src/utils/AwsUtils.cpp:148-149 | the header that is written is matched with exactly the parts that went into it |
| AuthorizationHeader.SignatureAtEndIsRead | src/core/src/utils/AwsUtils.cpp:310-325 | whatever stands before it, a signature at the end of a matched header is the one that is read |
| SignatureTheorems.ReadKeys | src/core/src/utils/AwsUtils.cpp:300-330 | from any signed request the keys of the match are read, with the written signature, the date of its own field and the caller's secret |
| SignatureTheorems.SignedVerifiesExactly | src/core/src/utils/AwsUtils.cpp:125-196 | any signed request is accepted exactly when something is matched and signing it again with the keys read gives the same signature |
| SignatureTheorems.KeptIsAccepted | src/core/src/utils/AwsUtils.cpp:125-196 | accepted if the header is read back, under the same secret, in one clock second, and without signing the authorization |
| SignatureTheorems.AcceptedWasKept | src/core/src/utils/AwsUtils.cpp:125-196 | accepted only then, or two different texts that the two signings hash collide |
| SignatureTheorems.UnsignableIsAccepted | src/core/src/utils/AwsUtils.cpp:310-311 | an access key outside the pattern with which the request is accepted all the same |
| SignatureTheorems.SignThenVerify | src/core/src/utils/AwsUtils.cpp:125-196 | with parts of the form of the pattern, signed within one clock second and without signing the authorization, it is accepted under the same secret at any later time |
| SignatureTheorems.AcceptedOtherwiseCollides | src/core/src/utils/AwsUtils.cpp:125-196 | across a clock second or with the authorization signed, it is accepted only if two strings to sign or two canonical requests collide |
| SignatureTheorems.CanonicalIsUnambiguous | src/core/src/utils/AwsUtils.cpp:198-208 | a canonical request determines each of its parts and the list of signed headers with their trimmed values |
| SignatureTheorems.StringToSignIsUnambiguous | src/core/src/utils/AwsUtils.cpp:222-230 | a string to sign determines its four fields |
| SignatureTheorems.AcceptedIsWhatWasSigned | src/core/src/utils/AwsUtils.cpp:183-230 | two requests accepted with one header say the same in every signed part, or two texts at hand collide |
| S3MemoryDb.MemoryDb.FindBucket | src/db/src/memorydb/S3MemoryDb.cpp:43-48 | the search ends at the first key in order that holds the bucket |
| S3MemoryDb.MemoryDb.BucketExists | src/db/src/memorydb/S3MemoryDb.cpp:12-19 | whether any entry has the region and name |
| S3MemoryDb.MemoryDb.GetBucketById | src/db/src/memorydb/S3MemoryDb.cpp:25-37 | finds the entry and writes the key into it, or gives the empty bucket |
| S3MemoryDb.MemoryDb.GetBucketByRegionName | src/db/src/memorydb/S3MemoryDb.cpp:39-54 | the same by region and name |
| S3MemoryDb.MemoryDb.CreateBucket | src/db/src/memorydb/S3MemoryDb.cpp:56-63 | a new entry whose oid is its key |
| S3MemoryDb.MemoryDb.BucketCount | src/db/src/memorydb/S3MemoryDb.cpp:100-103 | the number of entries |
| S3MemoryDb.MemoryDb.UpdateBucket | src/db/src/memorydb/S3MemoryDb.cpp:130-143 | overwrites the first entry with that region and name |
| S3MemoryDb.MemoryDb.DeleteBucket | src/db/src/memorydb/S3MemoryDb.cpp:145-155 | removes exactly the entries with that region and name |
| S3Database.Database.CreateOrUpdateBucket | src/db/src/repository/S3Database.cpp:244-251 | updates the bucket that is there and returns it as given, or creates it and returns it under the new oid |
| S3Database.Database.CreateBucketNotification | src/db/src/repository/S3Database.cpp:735-766 | the notification, or one for every event of its wildcard, replaces all notifications of the bucket found |
| S3Database.Database.DeleteBucketNotifications | src/db/src/repository/S3Database.cpp:768-804 | the events named, or those of the wildcard, are removed one after the other from the bucket found |
| S3Theorems.WithoutAllKeepsOthers | src/db/src/repository/S3Database.cpp:782-799 | removing events one after the other keeps exactly the notifications of all other events, in their order |
| S3Theorems.NotificationsAfterDelete | src/db/src/repository/S3Database.cpp:768-804 | for a bucket that is there only its own entry changes, and keeps the other events' notifications |
| S3Theorems.CreatedNotifications | src/db/src/repository/S3Database.cpp:738-761 | a new notification is stored as it is, or once for every event of its wildcard with the same targets |
| S3Theorems.WildcardStaysInClass | src/db/src/repository/S3Database.cpp:14-16 | a wildcard stands for exactly the events of its class, and for none without a class |
| S3Theorems.CreateThenDeleteLeavesNone | src/db/src/repository/S3Database.cpp:735-804 | creating and deleting by the same event string leaves no notification, whatever the string |
| S3Theorems.CreateIsIdempotent | src/db/src/repository/S3Database.cpp:735-766 | creating a notification again changes nothing |
| S3Theorems.WildcardIsItsEvents | src/db/src/repository/S3Database.cpp:14-16 | a class wildcard deletes what its events delete one by one in any order |
| S3Theorems.UnclassedWildcard | src/db/src/repository/S3Database.cpp:739-758 | a wildcard of no class deletes nothing, but creating with one clears the notifications, and only such a wildcard does |
| S3Theorems.MissingBucketOverwritesUnnamed | src/db/src/repository/S3Database.cpp:735-804 | for a missing bucket the bucket without region and name is replaced |
| S3Refinement.StepRefines | src/db/src/memorydb/S3MemoryDb.cpp:12-155 | every step on the store is the corresponding step on a plain map from region and name |
| S3Refinement.StoreIsAPlainMap | src/db/src/memorydb/S3MemoryDb.cpp:12-155 | after every run from the empty store: one entry a place, lookups and existence as in the plain map, and its size |

## Left out

- The MongoDB branches of the repositories, connection pooling, sockets, files, JSON and the services above: input and output over libraries that are not part of this model.
- SHA-256, HMAC, percent coding and Base64: parameters. Of URL decoding only that it keeps strings without `%` and `+` is assumed, of HMAC only that it has 32 bytes.
- The queue table of the SQS store, and the listing operations: single searches and filters like those proved for messages.
- `SQSMemoryDb::MessageRetention` and `SNSMemoryDb::DeleteOldMessages`: they erase from a map inside a loop over it.
- `UpdateMessage` as a step of the timing and handle runs in `SqsHistory`: it can write any status, handle or reset time. It is a step of the runs in `SqsIdentity`.
- Integer widths of the retry counter and of the clock; the conversion of the maximal message count to `size_t` is modelled.
- SqsDeliveries.DeliveriesAreBoundedExactly: counts over all time and so asks that nothing is redriven to the queue and messages start with counter 0; `StaysAreBoundedExactly` asks neither and counts since creation or the last redrive.
- A failing `malloc` in `Replace`; the case where the request wraps around to a huge number is stated by `RoomSuffices` only.
- Replace.Replace: asks for a pattern no longer than its replacement or absent, since otherwise the request is too small for the writes or wraps around (`RoomSuffices`).
- Header fields that occur more than once in a request: the model keeps each name once, as `set` leaves it.
- The forms of `AddAuthorizationHeader`, `GetCanonicalRequest` and `GetCanonicalHeaders` over a plain map of headers, and the form of `GetCanonicalQueryParameters` over a Poco request: the same text over another container.
- The forms of `AddQueryParameter` for booleans and numbers, and the lookups by prefix (`GetQueryParametersByPrefix` appends in both branches).
- The lambda, queue and topic notifications, encryption and time stamps of a bucket: carried along unchanged by the operations here.
- S3 objects in memory: `UpdateObject` and `DeleteObject` ignore the region and `GetBucketObjectList` stops at the first mismatch, so the obvious specification does not hold.
- DynamoDB, SNS, Cognito, KMS, Lambda, Module, Secrets Manager and Transfer stores: repeats of the same find, insert and erase.
- Configuration layering, timers and logging.
