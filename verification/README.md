# RedStone oracles: a Dafny model of the algorithms and protocols

This project models the parts of the RedStone TypeScript monorepo whose correctness is not visible from one function
body, and proves what they promise: numeric algorithms (monotone cubic spline, outlier filter, weighted median), the
binary payload format with its printer, parser and two consumers, and the stateful components that other code races
against (MQTT subscriber, call throttle, provider agreement, failover and quarantine, operation queue, topic
allocation, transaction delivery).

`dafny verify dfyconfig.toml` checks everything. Objects that the source updates in place are classes whose methods
are proved against functions on values; the promises are lemmas about those functions and about every run of them.

| file | what it models |
|---|---|
| `HermitePiece.dfy`, `MonotoneCubicSpline.dfy`, `SplineShape.dfy`, `SplineInverse.dfy` | the spline: one piece, the whole curve with its construction, the curve as its points determine it, and its inverse |
| `Bytes.dfy`, `DataPackage.dfy`, `RedstonePayload.dfy`, `RedstonePayloadParser.dfy`, `PayloadNormalForm.dfy`, `SplitPayload.dfy` | the payload format byte by byte, its parser, what parsing arbitrary bytes can return, the TON splitter and the EVM padding |
| `ClosestToMedian.dfy`, `NearestChoice.dfy`, `PublishProtocol.dfy`, `PublishRule.dfy`, `DataPackageSubscriber.dfy` | the subscriber: choice of packages and when it keeps the nearest, publishing as a transition system, when the documentation lets it publish and what then goes out, and the object |
| `Throttle.dfy` | the windowed throttle |
| `ProviderAgreement.dfy`, `ProviderFallback.dfy`, `CuratedRpcList.dfy` | voting, failover and quarantine of RPC providers |
| `TxDelivery.dfy`, `TxDeliveryMan.dfy` | delivery of a transaction with one nonce, and one delivery per provider |
| `OperationQueue.dfy`, `MultiPubSubClient.dfy`, `TopicRoom.dfy` | the relayer's queue, topics over broker connections, and how many connections any mix of requests makes |
| `Outliers.dfy`, `WeightedMedian.dfy` | robust statistics |
| `Sorting.dfy`, `Outcomes.dfy` | the library sort the source relies on; results and options |

## Where the code and its documentation part

Each of these is proved, with the exact condition under which the promise does hold.

- `forY` is only right on non-decreasing data. When the first value is above the last, every value is looked up on a
  linear tail, which is right for all values if and only if the points lie on one line
  (`SplineInverse.DecreasingInverseExactly`).
- A payload survives printing and parsing if and only if its feed ids are text of at most 31 bytes without zero bytes
  (`RedstonePayloadParser.RoundTripExactly`).
- `splitPayloadHex` compares one total length. Its chunks are the packages if and only if every package takes 142
  bytes, that is, one point of 32 bytes or two points of none (`SplitPayload.SplitExactly`, `SplitPayload.SplittablePackages`).
- "Never publish the same timestamp or older" holds for `publish()`. The fallback path hands over the unfiltered
  response once the first package of some feed is past its mark, so it repeats something exactly when besides some
  package of the response is not past its mark (`PublishProtocol.FallbackRedelivers`, and
  `PublishProtocol.ReachableIsAttained` for states it applies to). It also records the first package's timestamp for
  every feed: with mixed timestamps, later publishes and responses that pass the same check stay in order exactly when
  the response passes a check against the marks (`PublishProtocol.FallbackOrderExactly`,
  `PublishProtocol.MixedTimestampsBreakOrder`).
- The distance from the median is divided by the signed median, so the choice may drop a package nearer to the median
  than one it keeps. For all inputs, every order of arrival keeps the nearest exactly when no package that is really
  further away can be computed to be closer at the cut (`NearestChoice.KeepsNearestExactly`); with medians of one sign
  that is: they are positive, or nothing or everything is kept, or all packages are equally near
  (`NearestChoice.OneSignKeepsNearestExactly`, and `ClosestToMedian.NegativeMedianDropsNearest` for an input).
- The throttle's limit holds per tick. For every window of one interval it holds if and only if the limit is one call;
  in general a window can hold 2 * limit - 1 (`Throttle.LimitHoldsExactly`, `Throttle.WindowBoundReached`).
- `filterOutliers` documents ascending results; the group is ascending exactly when there are more than two numbers or
  they came ascending (`Outliers.FilterOutliers`).
- `numberOfProvidersThatHaveToAgree = 1` still needs two equal answers (`ProviderAgreement.AgreementOutcome`, through `Quorum`).
- `TxDelivery.deliver` "can be called only once": a second call is refused exactly when the first one got past its
  first attempt (`TxDeliveries.SecondCallRefusedExactly`).
- "When transaction returns it means that it was mined": where any broadcast may spread, even one that was answered with
  an error, a delivery that returned is sure to have one of its transactions mined exactly when nobody else sent a
  different one at its nonce, and the returned one exactly when besides all its attempts were the same
  (`TxDeliveries.MinedExactly`). Where only accepted broadcasts spread, only the accepted attempts need to be the same
  (`TxDeliveries.AcceptedMinedExactly`, and `TxDeliveries.RefusedAttemptMatters` for the difference). Runs where the
  promise fails are `TxDeliveries.ReturnsThoughSomeoneElseWasMined` and
  `TxDeliveries.ReturnsLaterThoughEarlierWasMined`.
- Failover picks the provider "which haven't failed for the longest period". Under a clock that may read the same twice,
  a call can still never repeat a provider exactly when at its start no provider but the current and the first one has
  its last error at that very reading (`ProviderFallback.NeverRepeatsExactly`, `ProviderFallback.TiesRetryTheSameProvider`).
- The error "network between rpcs is forked" needs no fork, only receipts for two nonces (`TxDeliveryMen.WaitExactly`).

## Model

| member | source | states |
|---|---|---|
| HermitePiece.TangentWithin3x | packages/utils/src/math/monotonic-cubic-spline.ts:145-159 | the tangent at an inner knot has the sign of both neighbouring slopes and is at most three times as steep as either |
| HermitePiece.PieceMonotone | packages/utils/src/math/monotonic-cubic-spline.ts:161-171 | a cubic with the source's coefficients and such tangents never turns back between its ends |
| HermitePiece.SlopeIsDerivative | packages/utils/src/math/monotonic-cubic-spline.ts:248-250 | the function called the slope of a piece is the derivative of the cubic the source evaluates |
| MonotoneCubicSpline.TangentsWithin3x | packages/utils/src/math/monotonic-cubic-spline.ts:134-159 | on monotone data both end tangents of every piece are within three times its mean slope |
| MonotoneCubicSpline.HitsKnot | packages/utils/src/math/monotonic-cubic-spline.ts:231-252 | the curve passes through every point |
| MonotoneCubicSpline.OnPiece | packages/utils/src/math/monotonic-cubic-spline.ts:231-252 | the interval search makes the curve the cubic of the surrounding knots, ends included |
| MonotoneCubicSpline.PieceJoins | packages/utils/src/math/monotonic-cubic-spline.ts:161-180 | adjacent pieces, and pieces and tails, meet in value and slope |
| SplineShape.CurveSlopes | packages/utils/src/math/monotonic-cubic-spline.ts:134-159 | at the ends the curve has the slope of the end chord, at a turn or beside a flat interval slope 0, and at any other knot the slope that balances the reciprocals of its neighbours, that of the shorter interval weighing more |
| SplineShape.BalanceUnique | packages/utils/src/math/monotonic-cubic-spline.ts:145-159 | only one slope balances two others |
| SplineShape.SlopesUnique | packages/utils/src/math/monotonic-cubic-spline.ts:134-159 | points allow only one choice of slopes |
| SplineShape.CurveDetermined | packages/utils/src/math/monotonic-cubic-spline.ts:16-29 | the curve is the cubic Hermite form with those slopes in every interval and the lines of the end chords outside, so the points alone determine it |
| MonotoneCubicSpline.Monotone | packages/utils/src/math/monotonic-cubic-spline.ts:16-29 | for all real arguments, tails included, the curve moves in the direction of the data |
| MonotoneCubicSpline.SortPoints | packages/utils/src/math/monotonic-cubic-spline.ts:182-195 | sorts the points by argument and keeps the pairs together |
| MonotoneCubicSpline.IsMonotonic | packages/utils/src/math/monotonic-cubic-spline.ts:200-229 | true exactly for non-decreasing or non-increasing values |
| MonotoneCubicSpline.CreateInterpolant | packages/utils/src/math/monotonic-cubic-spline.ts:104-132 | fails exactly on mismatched lengths, fewer than two points or points that are not monotone as a set; otherwise a spline through the given points, whatever their order, of the shape that the rows of `SplineShape` determine |
| MonotoneCubicSpline.ComputeCoefficients | packages/utils/src/math/monotonic-cubic-spline.ts:134-180 | the loops compute the spline that the lemmas, among them those of `SplineShape`, are about |
| MonotoneCubicSpline.FindIntervalIndex | packages/utils/src/math/monotonic-cubic-spline.ts:254-266 | the first half-open interval with the point, the last index for the last point, or an error |
| MonotoneCubicSpline.ForY | packages/utils/src/math/monotonic-cubic-spline.ts:34-74 | tails are inverted linearly; inside, the answer is exact, within precision in value, or the middle of a bracket of the value narrower than precision; an error only on an interval of at least precision * 2^49 |
| MonotoneCubicSpline.Bisect | packages/utils/src/math/monotonic-cubic-spline.ts:47-73 | the bracket around the value is kept by every halving |
| MonotoneCubicSpline.TailInverseExact | packages/utils/src/math/monotonic-cubic-spline.ts:36-42 | on non-decreasing data tail answers are exact and infinite answers mean the value is never reached |
| MonotoneCubicSpline.DecreasingDataMisanswered | packages/utils/src/math/monotonic-cubic-spline.ts:36-42 | on a decreasing curve a value the curve takes is answered far away |
| SplineInverse.ForYOnDecreasing | packages/utils/src/math/monotonic-cubic-spline.ts:34-42 | with the first value above the last, every value is answered from a tail |
| SplineInverse.LineEverywhere | packages/utils/src/math/monotonic-cubic-spline.ts:104-180 | through collinear points the spline is their line |
| SplineInverse.DecreasingInverseExactly | packages/utils/src/math/monotonic-cubic-spline.ts:34-42 | on decreasing data all answers are right if and only if the points lie on one line |
| Bytes.ConvertIntegerNumberToBytes | packages/protocol/src/common/utils.ts:83-93 | fixed-width big-endian bytes with the number's value; an error exactly when it does not fit |
| Bytes.FieldReadsBack | packages/protocol/src/common/utils.ts:83-96 | a field of at most six bytes reads back as the number written |
| Bytes.LexIsNumeric | packages/protocol/src/data-package/DataPackage.ts:95-110 | comparing ids as hex text is comparing them as numbers |
| Bytes.SliceBetween | packages/protocol/src/redstone-payload/RedstonePayloadParser.ts:188-193 | a slice by offset from the end returns the field that lies there |
| DataPackages.SortPointsSpec | packages/protocol/src/data-package/DataPackage.ts:95-110 | sorting fails exactly when two points share a bytes32 id, and is strict otherwise |
| DataPackages.SortPointsCanonical | packages/protocol/src/data-package/DataPackage.ts:95-110 | two orderings of the same points sort to the same sequence or both fail |
| DataPackages.PackageBytesCanonical | packages/protocol/src/data-package/DataPackage.ts:52-59 | the bytes depend on the set of points only, with the exact conditions under which there are none |
| DataPackages.PackageLayout | packages/protocol/src/data-package/DataPackage.ts:52-59 | in the signed bytes every 32-byte id field has its text in front and zeros behind, then comes the value; the points are in dictionary order of their fields, and of their bare texts where these hold no zeros; 6, 4 and 3 bytes of timestamp, value size and count close it |
| DataPackages.TextsPrecede | packages/protocol/src/common/utils.ts:28-38 | behind texts without zeros, padding does not change which comes first |
| DataPackages.SharedFieldExactly | packages/protocol/src/data-package/DataPackage.ts:95-110 | two ids count as duplicates exactly when one field can hold both |
| DataPackages.DataPackage.Create | packages/protocol/src/data-package/DataPackage.ts:26-44 | construction fails exactly for no points or values of different sizes |
| DataPackages.DataPackage.SerializeDataPoints | packages/protocol/src/data-package/DataPackage.ts:95-110 | sorts the object's points in place into dictionary order, or leaves them on failure; the bytes hold each id, its text from the first byte on and zeros behind it, and then its value |
| DataPackages.DataPackage.ToBytes | packages/protocol/src/data-package/DataPackage.ts:52-59 | returns the canonical bytes before and after the in-place sort alike, laid out as `PackageLayout` says for the points the object then has |
| RedstonePayload.SignedBytesLength | packages/protocol/src/data-package/SignedDataPackage.ts:59-64 | length of a signed package on the wire |
| RedstonePayload.SignedBytesHold | packages/protocol/src/data-package/SignedDataPackage.ts:59-64 | a signed package is its package laid out as above and 65 bytes of signature |
| RedstonePayload.PayloadLayout | packages/protocol/src/redstone-payload/RedstonePayload.ts:42-71 | the signed packages lie one after another, then two bytes with their number, the metadata, three bytes with its length and the nine bytes of the marker |
| RedstonePayloadParser.ReadsPackages | packages/protocol/src/redstone-payload/RedstonePayloadParser.ts:50-56 | advancing by the length of each package printed again consumes exactly the printed packages, in bounds |
| RedstonePayloadParser.ParseUndoesPrint | packages/protocol/src/redstone-payload/RedstonePayloadParser.ts:33-70 | after any prefix, parsing a printed payload gives its packages in order with sorted points, its metadata and the prefix |
| RedstonePayloadParser.RoundTripExactly | packages/protocol/src/redstone-payload/RedstonePayloadParser.ts:173-181 | that round trip holds if and only if all feed ids are text of at most 31 bytes without zeros |
| RedstonePayloadParser.Unambiguous | packages/protocol/src/redstone-payload/RedstonePayload.ts:42-71 | equal bytes mean equal prefix, metadata, signatures, timestamps and points |
| RedstonePayloadParser.AsParsedPrintsTheSame | packages/protocol/src/redstone-payload/RedstonePayloadParser.ts:50-56 | a parsed package prints as the original did, so the offset advance is right and signatures stay valid |
| PayloadNormalForm.ParsedIsStable | packages/protocol/src/redstone-payload/RedstonePayloadParser.ts:33-70 | whatever bytes are parsed, the result prints, and parsing that print behind the same prefix gives the same points, timestamps, signatures, metadata and prefix |
| PayloadNormalForm.ParsedEndsInMarker | packages/protocol/src/redstone-payload/RedstonePayloadParser.ts:84-94 | nothing is parsed that does not end in the marker |
| RedstonePayloadParser.DerivedIdMeaning | packages/protocol/src/redstone-payload/RedstonePayloadParser.ts:141-160 | a one-point package gets its feed id as package id, any other the multi-point id |
| RedstonePayloadParser.Parser.ExtractDataPoints | packages/protocol/src/redstone-payload/RedstonePayloadParser.ts:130-160 | the backward loop yields the points in wire order and the derived id |
| RedstonePayloadParser.Parser.ExtractSignedDataPackage | packages/protocol/src/redstone-payload/RedstonePayloadParser.ts:96-171 | the running offset reads the fields the specification names |
| RedstonePayloadParser.Parser.ParsePayload | packages/protocol/src/redstone-payload/RedstonePayloadParser.ts:33-70 | push, advance and reverse compute the specified parse, errors included |
| SplitPayload.SplitPayloadHex | packages/ton-connector/src/split-payload-hex.ts:5-58 | the loop computes the specified split or its error |
| SplitPayload.ChunksTile | packages/ton-connector/src/split-payload-hex.ts:47-55 | the chunks laid end to end are the front of the input, 142 bytes each |
| SplitPayload.SplitExactly | packages/ton-connector/src/split-payload-hex.ts:5-58 | chunks and metadata make up the input; the chunks are the packages if and only if each takes 142 bytes |
| SplitPayload.SplittablePackages | packages/ton-connector/src/split-payload-hex.ts:5-58 | which packages take 142 bytes |
| SplitPayload.PrepareRedstonePayload | packages/evm-connector/src/wrappers/BaseWrapper.ts:37-63 | padding gives a length divisible by 32 by exactly the missing 1 to 32 underscores, and fails exactly when the plain payload does or the metadata no longer fits its size field |
| SplitPayload.PaddingKeepsPackages | packages/evm-connector/src/wrappers/BaseWrapper.ts:37-63 | a padded payload parses to the same packages and prefix |
| ClosestToMedian.GetAllValues | packages/sdk/src/pick-closest-to-median.ts:50-59 | the nested loops group all values by feed in order |
| ClosestToMedian.GetMaxDistanceFromMedian | packages/sdk/src/pick-closest-to-median.ts:20-36 | the largest distance, an error exactly when some median is zero |
| ClosestToMedian.MaxDistanceIsGreatest | packages/sdk/src/pick-closest-to-median.ts:24-35 | that distance bounds the distance of every point and is zero or reached |
| ClosestToMedian.PickedAreClosest | packages/sdk/src/pick-closest-to-median.ts:8-18 | `count` of the packages, none left out having a smaller computed distance than one kept |
| ClosestToMedian.ChoiceKeepsSignersDistinct | packages/sdk/src/pick-closest-to-median.ts:8-18 | choosing keeps signers pairwise distinct |
| ClosestToMedian.PositiveMediansKeepNearest | packages/sdk/src/pick-closest-to-median.ts:24-35 | with positive medians nothing left out is really nearer than something kept |
| ClosestToMedian.NegativeMediansPickFirst | packages/sdk/src/pick-closest-to-median.ts:24-35 | with negative medians the choice is the first `count` packages |
| ClosestToMedian.NegativeMedianDropsNearest | packages/sdk/src/pick-closest-to-median.ts:24-35 | three negative values of which the median itself is dropped |
| NearestChoice.SameDistances | packages/sdk/src/pick-closest-to-median.ts:12-13 | medians and distances do not depend on the order of arrival |
| NearestChoice.KeepsNearestExactly | packages/sdk/src/pick-closest-to-median.ts:8-48 | every order of arrival keeps the really nearest packages if and only if no further one may be kept and a nearer one left out by the computed distances |
| NearestChoice.OneSignKeepsNearestExactly | packages/sdk/src/pick-closest-to-median.ts:24-35 | with medians of one sign that holds if and only if they are positive, or nothing or everything is kept, or all are equally near |
| PublishProtocol.PickedIsGoodChoice | packages/mqtt5-client/src/DataPackageSubscriber.ts:407-433 | a chosen set that is not empty has exactly the configured number of packages of distinct authorised signers, one feed and one timestamp, drawn from enough received, and closest by the computed distance |
| PublishProtocol.PublishIsSafe | packages/mqtt5-client/src/DataPackageSubscriber.ts:375-405 | publishing any stored or stale entry keeps order, form of published sets and marks |
| PublishProtocol.FallbackIsSafe | packages/mqtt5-client/src/DataPackageSubscriber.ts:150-190 | so does a fallback response that passes the check against the marks |
| PublishProtocol.CoherentRunIsHarmless | packages/mqtt5-client/src/DataPackageSubscriber.ts:160-170 | responses of one timestamp each pass that check in every state of a run |
| PublishProtocol.EveryRunIsSafe | packages/mqtt5-client/src/DataPackageSubscriber.ts:71-79 | over every run of publishes and responses that pass the check, each published package is strictly newer than anything delivered before for its feed, published sets are as promised, and marks never decrease |
| PublishProtocol.FallbackExactly | packages/mqtt5-client/src/DataPackageSubscriber.ts:161-182 | a delivered response of any timestamps keeps the marks above all deliveries if and only if it passes the check against the marks, and then no mark falls |
| PublishProtocol.OrderExactly | packages/mqtt5-client/src/DataPackageSubscriber.ts:71-79 | every continuation by publishes and by responses that pass the check stays in order if and only if nothing delivered is above its mark |
| PublishProtocol.FallbackOrderExactly | packages/mqtt5-client/src/DataPackageSubscriber.ts:161-182 | in any safe state, after a delivered response of any timestamps, every continuation by publishes and by responses that pass the check stays in order if and only if the response itself passed it |
| PublishProtocol.MixedTimestampsBreakOrder | packages/mqtt5-client/src/DataPackageSubscriber.ts:161-182 | one mixed response after which some publish is out of order |
| PublishProtocol.FallbackRedelivers | packages/mqtt5-client/src/DataPackageSubscriber.ts:169-183 | a response of any timestamps is delivered and repeats something not newer than before if and only if the first package of some feed is past its mark and some package is not |
| PublishProtocol.MarksStayAttained | packages/mqtt5-client/src/LastPublishedFeedState.ts:27-31 | a step keeps every mark above its initial value reached by a delivery for that feed |
| PublishProtocol.ReachableIsAttained | packages/mqtt5-client/src/DataPackageSubscriber.ts:71-79 | in every state a new subscriber reaches it is safe and its marks were reached by deliveries |
| PublishRules.PublishCovers | packages/mqtt5-client/src/DataPackageSubscriber.ts:375-433 | a publication hands over exactly the feeds with enough packages and older marks, each with a good choice, and moves exactly their marks; nothing happens if there is none, some feed cannot be measured or no signer is asked for |
| PublishRules.RunPublishesAllFeeds | packages/mqtt5-client/src/DataPackageSubscriber.ts:71-79 | unless missing feeds are ignored, in any run a publication from an entry that is ready hands over every feed whose mark is older |
| PublishRules.NeverEnough | packages/mqtt5-client/src/DataPackageSubscriber.ts:350-357 | when more signers are asked for than are authorised, no entry lets anything be published |
| PublishRules.FallbackCovers | packages/mqtt5-client/src/DataPackageSubscriber.ts:160-183 | a fallback response goes out whole exactly when the first package of some feed is past its mark, and moves exactly the marks of those feeds, to the first timestamp of the response |
| DataPackageSubscribers.LastPublishedFeedState.Update | packages/mqtt5-client/src/LastPublishedFeedState.ts:27-31 | moves exactly the marks of the given feeds |
| DataPackageSubscribers.DataPackageSubscriber.constructor | packages/mqtt5-client/src/DataPackageSubscriber.ts:102-138 | a configured subscriber starts valid and safe, with every mark at the initial time |
| DataPackageSubscribers.DataPackageSubscriber.ProcessNewPackage | packages/mqtt5-client/src/DataPackageSubscriber.ts:262-347 | which messages are rejected, stored, scheduled or published at once, as the three rows below say, and what each leaves in the map, timers, marks and log; a timer is started only and always on an entry that is ready |
| DataPackageSubscribers.AcceptedExactly | packages/mqtt5-client/src/DataPackageSubscriber.ts:262-318 | a message is accepted exactly when its feed is configured, its signer authorised and not yet stored for that feed and timestamp, and it is newer than the mark |
| DataPackageSubscribers.StoredBehind | packages/mqtt5-client/src/DataPackageSubscriber.ts:320-330 | it is stored behind the packages of its feed and timestamp, and nothing else changes |
| DataPackageSubscribers.ActsExactly | packages/mqtt5-client/src/DataPackageSubscriber.ts:328-373 | with all signers of all feeds it publishes at once; otherwise it starts a timer exactly when enough signers of every feed are there or, if missing feeds are ignored, of some feed |
| DataPackageSubscribers.DataPackageSubscriber.FireTimer | packages/mqtt5-client/src/DataPackageSubscriber.ts:337-346 | a timer publishes from the entry object it was started with, however stale, and that entry is still ready |
| DataPackageSubscribers.DataPackageSubscriber.Publish | packages/mqtt5-client/src/DataPackageSubscriber.ts:375-405 | takes the protocol's publish step and cleans the map, or changes nothing |
| DataPackageSubscribers.DataPackageSubscriber.PreparePackages | packages/mqtt5-client/src/DataPackageSubscriber.ts:407-433 | selection per feed with enough packages, then only feeds newer than their marks; an error for a zero median or an empty choice |
| DataPackageSubscribers.DataPackageSubscriber.CleanPublishedAndStalePackages | packages/mqtt5-client/src/DataPackageSubscriber.ts:435-452 | the published timestamp keeps only newer feeds, and nothing stale stays |
| DataPackageSubscribers.CleanedExactly | packages/mqtt5-client/src/DataPackageSubscriber.ts:435-452 | nothing stored is two minutes old or more; of the published timestamp the feeds newer than their marks stay, of any other all |
| DataPackageSubscribers.DataPackageSubscriber.FallbackStep | packages/mqtt5-client/src/DataPackageSubscriber.ts:160-183 | takes the protocol's fallback step |
| DataPackageSubscribers.HandleEvents | packages/mqtt5-client/src/DataPackageSubscriber.ts:71-79 | over any series of messages, timers and responses, empty ones included, the object makes a run of the protocol, and stays safe when the responses pass the check in the states they meet; every publication was ready, and so is every pending timer's entry |
| Throttle.WindowedThrottle.WindowedDelay | packages/utils/src/common/p-throttle.ts:97-117 | the delay of the specified tick |
| Throttle.WindowedThrottle.Throttled | packages/utils/src/common/p-throttle.ts:150-173 | a call executes at once or when its tick comes; switched off it executes at once and is not charged |
| Throttle.ChargesAreWell | packages/utils/src/common/p-throttle.ts:97-117 | slots stay within the limit and each call joins the last tick or opens one at least an interval later |
| Throttle.TickGuarantees | packages/utils/src/common/p-throttle.ts:97-117 | each call executes between its tick and one interval later; calls of one tick hold different slots; ticks are an interval apart |
| Throttle.ExecutesExactly | packages/utils/src/common/p-throttle.ts:97-117 | when the k-th of any number of calls at one moment executes, whatever was called before: on the current tick, or at once on a new one, while that has room, and behind it every `limit` calls one interval later each |
| Throttle.WindowBound | packages/utils/src/common/p-throttle.ts:30-37 | any window of one interval holds at most 2 * limit executions, and 2 * limit - 1 once the clock is past the first interval |
| Throttle.WindowBoundReached | packages/utils/src/common/p-throttle.ts:30-37 | past the first interval 2 * limit - 1 executions in one window are reached |
| Throttle.EarlyBoundReached | packages/utils/src/common/p-throttle.ts:97-117 | before that 2 * limit are reached |
| Throttle.LimitHoldsExactly | packages/utils/src/common/p-throttle.ts:30-37 | the documented limit per interval holds for all series of calls if and only if it is one |
| ProviderAgreement.ReplyKeepsInv | packages/rpc-providers/src/providers/ProviderWithAgreement.ts:333-356 | counting a reply keeps the tally equal to the voters of each value and every settlement justified |
| ProviderAgreement.FinishKeepsInv | packages/rpc-providers/src/providers/ProviderWithAgreement.ts:358-400 | so does a provider that finishes or fails |
| ProviderAgreement.InvHolds | packages/rpc-providers/src/providers/ProviderWithAgreement.ts:325-404 | the invariant holds in every state of every interleaving |
| ProviderAgreement.SettlementStays | packages/rpc-providers/src/providers/ProviderWithAgreement.ts:351-382 | the round settles once |
| ProviderAgreement.AgreementOutcome | packages/rpc-providers/src/providers/ProviderWithAgreement.ts:317-405 | fulfils with an agreed value if and only if max(2, N) distinct providers returned one; otherwise, once all finished, rejects or falls back to a value with the most votes |
| ProviderAgreement.MostVotesIsMost | packages/rpc-providers/src/providers/ProviderWithAgreement.ts:461-471 | no value has more voters than the one picked |
| ProviderAgreement.LastResortIsFirst | packages/rpc-providers/src/providers/ProviderWithAgreement.ts:461-471 | the value fallen back to has the most votes, and of those with as many it is the one that was returned first |
| ProviderAgreement.VotesAreReplies | packages/rpc-providers/src/providers/ProviderWithAgreement.ts:333-356 | in every run the votes are the replies so far, and who finished is who finished or failed |
| ProviderAgreement.AgreementRound.OnReply | packages/rpc-providers/src/providers/ProviderWithAgreement.ts:333-356 | the closure's code takes the reply step |
| ProviderAgreement.AgreementRound.HandleResult | packages/rpc-providers/src/providers/ProviderWithAgreement.ts:358-382 | the closure's code takes the finish step |
| ProviderAgreement.AgreementRound.PickResponseWithMostVotes | packages/rpc-providers/src/providers/ProviderWithAgreement.ts:461-471 | the scan returns the first value with most votes |
| ProviderFallback.CallTriesEachOnce | packages/rpc-providers/src/providers/ProviderWithFallback.ts:196-225 | a call whose failures tie with no old error, except of the first or the current provider, uses pairwise different providers and throws a recoverable error only after every one failed once |
| ProviderFallback.NeverRepeatsExactly | packages/rpc-providers/src/providers/ProviderWithFallback.ts:273-291 | whatever a call meets from a reading of the clock on, it repeats no provider if and only if no provider but the current and the first has its last error at that reading |
| ProviderFallback.EveryCallTriesEachOnce | packages/rpc-providers/src/providers/ProviderWithFallback.ts:88-97 | so does every call of any history under a clock that does not go back, if it fails later than the calls before it or starts without such a tie |
| ProviderFallback.NextCallExactly | packages/rpc-providers/src/providers/ProviderWithFallback.ts:196-225 | after any such history the next call can repeat a provider if and only if there is such a tie |
| ProviderFallback.TiesRetryTheSameProvider | packages/rpc-providers/src/providers/ProviderWithFallback.ts:273-291 | a history of two providers from their initial state after which such a tie exists and the next call can repeat a provider |
| ProviderFallback.CallFollowsReplies | packages/rpc-providers/src/providers/ProviderWithFallback.ts:196-292 | a call starts on the current provider, goes on while replies are recoverable errors, at most once for each provider, each time with the first of those whose last error is the longest ago, ends as its last reply says, and remembers the time of every error but a last one |
| ProviderFallback.ProviderWithFallback.constructor | packages/rpc-providers/src/providers/ProviderWithFallback.ts:88-97 | the initial provider and error times |
| ProviderFallback.ProviderWithFallback.ElectNewProviderOrFail | packages/rpc-providers/src/providers/ProviderWithFallback.ts:247-292 | throws exactly on an unrecoverable error or the last retry, otherwise elects the provider with the oldest error |
| ProviderFallback.ProviderWithFallback.DoExecuteWithFallback | packages/rpc-providers/src/providers/ProviderWithFallback.ts:196-225 | the recursion makes the attempts of the specified call |
| CuratedRpcLists.WeightedRandom | packages/utils/src/math/index.ts:110-128 | returns the index whose share of the total weight holds the random number, -1 only for no weights |
| CuratedRpcLists.ReleaseCounts | packages/rpc-providers/src/providers/CuratedRpcList.ts:124-141 | a release makes exactly one more provider healthy |
| CuratedRpcLists.FlagsPartition | packages/rpc-providers/src/providers/CuratedRpcList.ts:108-111 | healthy and quarantined providers together are all providers |
| CuratedRpcLists.HistoryExactly | packages/rpc-providers/src/providers/CuratedRpcList.ts:87-106 | over any history of reports, evaluations and releases the counts are the reports and failed reports since the last evaluation; an evaluation quarantines and raises the counter exactly when there were reports and failures > maxErrorRate * reports, and a release alone ends the quarantine |
| CuratedRpcLists.ReleasesExactly | packages/rpc-providers/src/providers/CuratedRpcList.ts:124-141 | the released provider is the one whose share of the unit interval holds the random number, shares being proportional to the inverse of how often a provider was quarantined |
| CuratedRpcLists.FlagKeepsOrder | packages/rpc-providers/src/providers/CuratedRpcList.ts:108-111 | healthy and quarantined providers are listed in the order of the configuration |
| CuratedRpcLists.CuratedRpcList.Create | packages/rpc-providers/src/providers/CuratedRpcList.ts:56-75 | refuses exactly too large a minimum and repeated identifiers |
| CuratedRpcLists.CuratedRpcList.ScoreRpc | packages/rpc-providers/src/providers/CuratedRpcList.ts:87-90 | records the report in the history of the provider, of which the score is what `HistoryExactly` says |
| CuratedRpcLists.CuratedRpcList.EvaluateRpcScore | packages/rpc-providers/src/providers/CuratedRpcList.ts:92-106 | records the evaluation in that history |
| CuratedRpcLists.CuratedRpcList.FreeOneRpcFromQuarantine | packages/rpc-providers/src/providers/CuratedRpcList.ts:124-141 | releases the quarantined provider whose weighted share holds the random number, or none if none is there |
| CuratedRpcLists.CuratedRpcList.GetBestProviders | packages/rpc-providers/src/providers/CuratedRpcList.ts:108-122 | ends for any random numbers with at least the minimum of distinct providers, none in quarantine, releasing no more than needed |
| TxDeliveries.AttemptsStop | packages/rpc-providers/src/tx-delivery-man/TxDelivery.ts:179-231 | one transaction per attempt, all at one nonce, stopping at the first reply that does not let the loop go on |
| TxDeliveries.AttemptsReturn | packages/rpc-providers/src/tx-delivery-man/TxDelivery.ts:282-320 | the loop ends with a used nonce exactly when a reply says so, returning the last accepted broadcast or blaming someone else if there is none |
| TxDeliveries.DeliveryIsSafe | packages/rpc-providers/src/tx-delivery-man/TxDelivery.ts:171-232 | at most maxAttempts broadcasts share the nonce fetched first; a return means an accepted broadcast of ours and an account nonce past it |
| TxDeliveries.EndsWithoutMining | packages/rpc-providers/src/tx-delivery-man/TxDelivery.ts:195-231 | while no reply says that the nonce is used, a delivery does not return: it waits, throws after exactly maxAttempts broadcasts, or ends by the error or failed call of the first reply that stops it |
| TxDeliveries.AtMostOneMined | packages/rpc-providers/src/tx-delivery-man/TxDelivery.ts:340-365 | at most one transaction of a delivery is mined, at its nonce, and something is mined there when it returns |
| TxDeliveries.MinedExactly | packages/rpc-providers/src/tx-delivery-man/TxDeliveryMan.ts:40-43 | where any broadcast may spread, over all chains that may follow, a delivery that returned has one of its own mined if and only if nobody else sent another at its nonce, and the returned one if and only if besides all its attempts are equal |
| TxDeliveries.AcceptedMinedExactly | packages/rpc-providers/src/tx-delivery-man/TxDeliveryMan.ts:40-43 | the same where only accepted broadcasts spread, for the accepted attempts |
| TxDeliveries.RefusedAttemptMatters | packages/rpc-providers/src/tx-delivery-man/TxDelivery.ts:292-304 | a run on which the two differ: the second attempt is refused because the first was mined, and the first is returned |
| TxDeliveries.SomeoneElseIsRight | packages/rpc-providers/src/tx-delivery-man/TxDelivery.ts:292-297 | if only accepted broadcasts reach the network, that error is true |
| TxDeliveries.ReturnsThoughSomeoneElseWasMined | packages/rpc-providers/src/tx-delivery-man/TxDelivery.ts:253-273 | when another transaction takes the nonce before the first check, the delivery returns though none of its transactions was mined |
| TxDeliveries.ReturnsLaterThoughEarlierWasMined | packages/rpc-providers/src/tx-delivery-man/TxDelivery.ts:253-273 | a run that returns its second transaction though its first was mined |
| TxDeliveries.SignedExactly | packages/rpc-providers/src/tx-delivery-man/TxDelivery.ts:322-338 | the first transaction is unscaled; each later one has the fee estimate times the multiplier to the number of attempts made, to the nearest whole number, the gas limit estimate unless fees are two-dimensional, and the calldata fetched last |
| TxDeliveries.BidsNeverFall | packages/rpc-providers/src/tx-delivery-man/Eip1559GasEstimator.ts:94-111 | bids never fall when estimates do not and the multiplier is at least one |
| TxDeliveries.PowersAdd | packages/rpc-providers/src/tx-delivery-man/Eip1559GasEstimator.ts:95 | the scale of an attempt starts at one and grows by one factor an attempt |
| TxDeliveries.SecondCallRefusedExactly | packages/rpc-providers/src/tx-delivery-man/TxDelivery.ts:172-175 | a second call is refused if and only if the first got past its first attempt |
| TxDeliveries.TxDelivery.Deliver | packages/rpc-providers/src/tx-delivery-man/TxDelivery.ts:171-232 | the loop makes the broadcasts, ends with the outcome and leaves the counter that the specification gives |
| TxDeliveryMen.NeverTwoInFlight | packages/rpc-providers/src/tx-delivery-man/TxDeliveryMan.ts:105-124 | in every interleaving a provider's flag is up exactly while its one delivery is in flight |
| TxDeliveryMen.CallStartsOnIdle | packages/rpc-providers/src/tx-delivery-man/TxDeliveryMan.ts:49-67 | a call starts a delivery exactly on the first place of each idle provider |
| TxDeliveryMen.WaitExactly | packages/rpc-providers/src/tx-delivery-man/TxDeliveryMan.ts:157-189 | on one chain a fork is reported if and only if two receipts have different nonces; otherwise the one mined transaction |
| TxDeliveryMen.ForkedExactly | packages/rpc-providers/src/tx-delivery-man/TxDeliveryMan.ts:157-189 | whatever the receipts, a fork is reported exactly when two of them are for different transactions |
| TxDeliveryMen.TxDeliveryMan.Deliver | packages/rpc-providers/src/tx-delivery-man/TxDeliveryMan.ts:45-67 | the loop over providers takes the call step |
| TxDeliveryMen.TxDeliveryMan.DeliverySettled | packages/rpc-providers/src/tx-delivery-man/TxDeliveryMan.ts:117-119 | a settled delivery, returned or thrown, frees its provider |
| OperationQueues.EnqueueKeepsInv | packages/on-chain-relayer/src/runner/OperationQueue.ts:12-35 | enqueueing keeps ids distinct, one operation active, its id not queued, and places in order |
| OperationQueues.SettledKeepsInv | packages/on-chain-relayer/src/runner/OperationQueue.ts:37-55 | so does a settled operation |
| OperationQueues.InvHolds | packages/on-chain-relayer/src/runner/OperationQueue.ts:12-55 | the invariant holds in every state of every interleaving; an idle processor means an empty queue |
| OperationQueues.HistoryGrows | packages/on-chain-relayer/src/runner/OperationQueue.ts:12-55 | nothing started is undone and places keep their order |
| OperationQueues.StartsInOrderWithLatest | packages/on-chain-relayer/src/runner/OperationQueue.ts:12-55 | the k-th start is the k-th place taken, with the operation of the last accepted request for its id |
| OperationQueues.RefusedExactly | packages/on-chain-relayer/src/runner/OperationQueue.ts:23-29 | a request is refused if and only if its id is active, and then changes nothing |
| OperationQueues.DrainsCompletely | packages/on-chain-relayer/src/runner/OperationQueue.ts:37-55 | when what waits has settled, every place was started and nothing is active |
| OperationQueues.OperationQueue.Enqueue | packages/on-chain-relayer/src/runner/OperationQueue.ts:12-35 | the code takes the request step and returns whether it was accepted |
| OperationQueues.OperationQueue.OperationSettled | packages/on-chain-relayer/src/runner/OperationQueue.ts:37-55 | the rest of a loop turn takes the settlement step |
| MultiPubSub.SubscribeAddsExactly | packages/mqtt5-client/src/MultiPubSubClient.ts:114-143 | a subscribe adds each topic as often as requested, overfills no connection and moves no assignment |
| MultiPubSub.SubscribePacks | packages/mqtt5-client/src/MultiPubSubClient.ts:114-143 | it leaves all connections full but the last |
| MultiPubSub.RunUsesFewestConnections | packages/mqtt5-client/src/MultiPubSubClient.ts:100-143 | any run of non-empty subscribes uses exactly ceil(total / capacity) connections |
| MultiPubSub.EmptySubscribeWastes | packages/mqtt5-client/src/MultiPubSubClient.ts:119-126 | an empty subscribe makes a useless connection exactly when all are full |
| MultiPubSub.RunUsesExactly | packages/mqtt5-client/src/MultiPubSubClient.ts:100-143 | any run of subscribes uses ceil(total / capacity) connections, and one more exactly when the last one asked for nothing and everything was full |
| MultiPubSub.UnsubscribeRemovesExactly | packages/mqtt5-client/src/MultiPubSubClient.ts:76-101 | takes away every assignment of a named topic and no other |
| MultiPubSub.UnsubscribeKeepsNoEmpty | packages/mqtt5-client/src/MultiPubSubClient.ts:90-96 | keeps no connection without topics |
| TopicRoom.SubscribeMakesExactly | packages/mqtt5-client/src/MultiPubSubClient.ts:114-143 | with room the sum of capacity minus topics over the connections that are not full, a subscribe makes exactly ceil(max(0, topics asked for - room) / capacity) connections, in order and none empty, or one for no topics when there is no room, and takes no connection while an earlier one has room |
| TopicRoom.UnsubscribeKeepsExactly | packages/mqtt5-client/src/MultiPubSubClient.ts:76-101 | an unsubscribe keeps exactly the connections with another topic, in order, each with all its other topics |
| TopicRoom.RunAssignsExactly | packages/mqtt5-client/src/MultiPubSubClient.ts:76-143 | over any mix of subscribes and unsubscribes a topic is assigned as often as it was asked for since it was last given up, and no connection is over capacity |
| TopicRoom.RunMakesExactly | packages/mqtt5-client/src/MultiPubSubClient.ts:76-143 | after any such mix one more subscribe makes exactly the connections that do not fit into the places the load leaves |
| MultiPubSub.ChunksCover | packages/mqtt5-client/src/MultiPubSubClient.ts:35-47 | the chunks are the payloads in order, none empty or over the limit, as few as possible |
| MultiPubSub.MultiPubSubClient.Subscribe | packages/mqtt5-client/src/MultiPubSubClient.ts:114-143 | the recursion ends and leaves the specified connections, which `TopicRoom.SubscribeMakesExactly` counts |
| MultiPubSub.MultiPubSubClient.FillFreeClients | packages/mqtt5-client/src/MultiPubSubClient.ts:128-138 | the loop over free connections gives out topics from the front |
| MultiPubSub.MultiPubSubClient.Unsubscribe | packages/mqtt5-client/src/MultiPubSubClient.ts:76-101 | the loop leaves the specified connections |
| MultiPubSub.MultiPubSubClient.Publish | packages/mqtt5-client/src/MultiPubSubClient.ts:29-59 | makes only the missing connections and sends all payloads in order, at most 100 per connection and no connection twice |
| Outliers.FilterOutliers | packages/utils/src/math/index.ts:63-108 | splits the numbers into a tight group that no tight sub-multiset exceeds in size, the lowest of that length among the sorted numbers, and ascending outliers; the group is ascending if and only if there are more than two numbers or they came ascending |
| Outliers.BestWindow | packages/utils/src/math/index.ts:76-97 | the nested loops find a longest tight window, the first of that length |
| Outliers.NoLargerGroup | packages/utils/src/math/index.ts:76-97 | no tight sub-multiset, contiguous or not, beats the best window |
| WeightedMedian.GetWeightedMedian | packages/utils/src/ISafeNumber/ISafeNumberWeighted.ts:8-37 | meets an order-free definition of the weighted median, reads nothing past the end, and fails only for no values |
| WeightedMedian.MedianUnique | packages/utils/src/ISafeNumber/ISafeNumberWeighted.ts:8-37 | there is one weighted median |
| WeightedMedian.MedianBalances | packages/utils/src/ISafeNumber/ISafeNumberWeighted.ts:8-37 | at most half of the weight lies on either side |
| WeightedMedian.MedianRearranged | packages/utils/src/ISafeNumber/ISafeNumberWeighted.ts:15-17 | it does not depend on the order of the input |
| WeightedMedian.MedianScales | packages/utils/src/ISafeNumber/ISafeNumberWeighted.ts:49-57 | nor on the scale of the weights |
| WeightedMedian.NormalizeWeightedValues | packages/utils/src/ISafeNumber/ISafeNumberWeighted.ts:49-57 | weights add up to one and the weighted median stays |
| WeightedMedian.GetMedian | packages/utils/src/ISafeNumber/ISafeNumberMath.ts:31-45 | sorts the caller's array in place and returns its middle |
| WeightedMedian.MedianIsUnitWeighted | packages/utils/src/ISafeNumber/ISafeNumberMath.ts:31-45 | the plain median is the weighted median of unit weights |
| WeightedMedian.EqualWeightsGivePlainMedian | packages/utils/src/ISafeNumber/ISafeNumberWeighted.ts:8-37 | with equal weights the weighted median is the plain median |

## Left out

Numbers and libraries
- Rounding of JavaScript numbers and the epsilon of number comparison: arithmetic is over exact reals and integers.
- `Array.prototype.sort` is modelled as a stable insertion sort; results that do not depend on the algorithm are proved not to.
- MonotoneCubicSpline.CreateInterpolant: the arguments are pairwise different; for repeated ones the source divides by zero and goes on with infinities, which exact reals do not have.
- WeightedMedian.GetWeightedMedian: weights are positive; with others the source may read past the end or reach its final throw.
- Logarithmic weighting, which only rescales weights, and the other helpers of the math modules.

Payload
- Signatures are opaque strings of 65 bytes; recovery of signers, hashing of long ids (given here as digests) and the recovery-id convention are library calls.
- DataPackages.FeedIdBytes: a text of more than 31 bytes is an error, while the source hashes one of more than 31 characters; such ids are given here by their digest.
- Feed ids are byte strings; validity of UTF-8 is not modelled. Values and metadata in other encodings and JSON forms are left out.
- RedstonePayloadParser.ParseUndoesPrint: the package id is not on the wire, so a parsed package carries the derived one; points come back in sorted order.

Subscriber
- Schema and signature verification of a message happens before the modelled step; its signer is an input.
- The circuit breaker, topics, logging and the MQTT transport; subscribing is taken to succeed and the callback not to throw.
- PublishProtocol.FallbackRedelivers: the packages are later than the initial marks, and every mark was reached by a delivery.
- PublishProtocol.OrderExactly: the configuration can publish at all, with at least one signer and enough distinct authorised ones; any other publishes nothing.
- The delay after which a fallback is fetched: a response may arrive at any time.

Providers, throttle and delivery
- The strict mode of the throttle, aborting, and timers that fire late or a clock that goes back.
- Agreement needs at least one healthy provider: with none the promise of the source never settles. A timeout is a failure like any other. Election of a block number and the scoring of providers around a round are left out.
- Overlapping calls on one `ProviderWithFallback` share its index and are not modelled, nor are event listeners.
- The timers that evaluate scores and release providers are calls that may come at any time.
- Fee estimation and gas oracles are inputs of each attempt; classification of error messages is the kind of reply. The several fee fields of a transaction are one field, and waiting takes no time.
- TxDeliveries.DeliveryIsSafe: providers may lag behind the chain but do not report a nonce ahead of it or call an unused nonce used.
- TxDeliveryMen.WaitExactly: the ten-second timeout per receipt and the receipt's other fields are left out.

Connections
- MultiPubSub.SubscribeAddsExactly: the capacity is at least one (with zero the source never stops making connections) and calls to the broker succeed; the mutexes make each call one step.

Not modelled at all: chain connectors other than the TON splitter, the command line, controllers, databases, cloud
functions, configuration, and the relayer's update conditions.
