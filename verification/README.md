# Verification of libspeedwire

libspeedwire talks to SMA inverters and energy meters. This project models the parts of the library that compute:
the measurement pipeline, the small stateful protocols around it, and the packet codecs. Every method that changes
state is a method of a class over the same fields; its contract ties the new state to a function of the old one, and
lemmas state what that function means over all inputs and over whole runs.

| file | what it models |
|---|---|
| `Words.dfy` | the fixed-width unsigned integers, and division by a variable |
| `SpeedwireTime.dfy` | modular time differences, and the expansion of 32-bit times to 64 bits around a reference |
| `RingBuffer.dfy` | the ring buffer with its doubled reference vector, refining a plain sequence |
| `Statistics.dfy` | the one-pass sums, the integer slope formula, and the least-squares theory behind them |
| `MeasurementValues.dfy` | closest measurement, interpolation and statistics on a ring buffer of timed values |
| `LineSegmentEstimator.dfy` | sliding windows, the two change point searches, and the intervals between change points |
| `CalculatedValueProcessor.dfy` | signed power series and the emission of new intervals over repeated calls |
| `AveragingProcessor.dfy` | one averaging timer for each device, and the forwarding of blocks to consumers |
| `DeviceRegistry.dfy` | the list of discovered devices with its placeholders |
| `DiscoveryScan.dfy` | the counters of the discovery requests and the three-attempt loop |
| `CommandTokens.dfy` | cyclic packet ids, the repository of open requests, and the life of a token in a query |
| `ByteEncoding.dfy` | integers in big and little endian byte order |
| `SpeedwireHeader.dfy` | the tag parse, the validity checks, the encoding of tags, and the default header |
| `DiscoveryProtocol.dfy` | discovery requests and responses and their classification |
| `EmeterProtocol.dfy` | OBIS elements: walking, writing, and a whole emeter packet |

`dafny verify dfyconfig.toml` checks all files.

Conventions: `size_t` has 64 bits, and so has `unsigned long` except for the averaging timers, where its size is a
parameter; every wrap-around is written out with `%`. A `double` is a
`real`; where a division by zero decides a result, that outcome is a case of its own (`Interpolated.Undefined`,
`RatioExceedsNine`). A pointer into a packet is an offset from its first byte, NULL is `None`. Clocks, received
packets, the outcome of sending, and the interface configuration are parameters; what is sent or produced is appended to
a ghost log. Where a promise of the library does not hold for all inputs, the code is modelled as it is and a lemma
states exactly when the promise holds: `SetCapacityExact`, `RemovalExact`, `SlopeExact`, `LinearIffNearest`,
`EmeterRoundTrip`, `InverterRoundTrip`, `AllReportedExactly`, `TimerExact`, `RegisterTwiceExact`, `SameLineDiffersExactly`,
`ExpiryExact`, `ReplyFindsTokenExact`, `RemoveTwiceExact`, `QueryDeviceType`, `EncodedPacketAccepted`, `WalkStaysInsideExactly`,
`ElementsRoundTrip`.

Where code and comments disagree, the model follows the code:

- The full scan is announced for network prefixes below 16 bits (`src/SpeedwireDiscovery.cpp:310`); the code scans
  exactly the interfaces with a prefix of at least 24 bits.
- `setMaximumNumberOfElements` is documented to set the maximum (`include/RingBuffer.hpp:49-51`); it never lowers it.
- The full check of a data2 packet is documented to test that the end-of-data tag concludes the packet
  (`src/SpeedwireHeader.cpp:54`); it accepts anything behind that tag in which no complete tag fits.
- `mean_diff_21` is computed but `mean_21` is squared (`include/LineSegmentEstimator.hpp:312-313`); `SameLineDiffersExactly`
  says what follows from it for two windows on the same flat line.

## Model

| member | source | states |
|---|---|---|
| `SpeedwireTime.Difference32` | include/SpeedwireTime.hpp:146-148 | the signed reading of the 32-bit difference: it lies in [-2^31, 2^31) and leads from the second time to the first modulo 2^32 |
| `SpeedwireTime.Difference64` | include/SpeedwireTime.hpp:153-155 | the same for 64 bits |
| `SpeedwireTime.DifferenceOfInstants` | include/SpeedwireTime.hpp:146-148 | the difference of the truncations of two instants less than 2^31 apart is their true difference, across any wrap |
| `SpeedwireTime.ExpandInWindow` | include/SpeedwireTime.hpp:112-141 | the expansion keeps the 32 given bits and lands within 2^31 of the reference modulo 2^64, ties going to the corrected upper half |
| `SpeedwireTime.ExpandIsNearest` | include/SpeedwireTime.hpp:112-141 | no 64-bit time with the same lower half is nearer to the reference |
| `SpeedwireTime.WindowIsInjective` | include/SpeedwireTime.hpp:112-141 | two times in the window of a reference with the same lower half are equal |
| `SpeedwireTime.EmeterRoundTrip` | include/SpeedwireTime.hpp:39-66 | an epoch time survives the conversion to an emeter time and back if and only if it lies in the window of the reference |
| `SpeedwireTime.InverterRoundTrip` | include/SpeedwireTime.hpp:49-80 | an epoch time survives the conversion to an inverter time and back, to the second, if and only if its second lies in the window |
| `SpeedwireTime.CrossConversionsAgree` | include/SpeedwireTime.hpp:87-105 | inside the window, converting between emeter and inverter times equals converting the epoch time itself |
| `RingBuffers.RingBuffer.constructor` | include/RingBuffer.hpp:26-30 | an empty buffer with the given capacity |
| `RingBuffers.RingBuffer.ClearElements` | include/RingBuffer.hpp:35-38 | the plain sequence becomes empty; references are left behind |
| `RingBuffers.RingBuffer.SetMaximumNumberOfElements` | include/RingBuffer.hpp:53-57 | empties the buffer and raises the capacity to the given one |
| `RingBuffers.SetCapacityExact` | include/RingBuffer.hpp:48-57 | the capacity is the requested one if and only if that is not smaller than before |
| `RingBuffers.RingBuffer.GetNumberOfElements` | include/RingBuffer.hpp:63-65 | the length of the plain sequence |
| `RingBuffers.RingBuffer.AddNewElement` | include/RingBuffer.hpp:71-86 | in place, on values, references and write pointer: the plain sequence gets the element and keeps its newest `capacity` ones; a capacity of 0 grows to 1 |
| `RingBuffers.RingBuffer.UpdateReferences` | include/RingBuffer.hpp:78-81 | the loop makes both halves of the reference vector refer to the elements in storage order |
| `RingBuffers.RingBuffer.RemoveElements` | include/RingBuffer.hpp:94-114 | removes the given range of the plain sequence, ignores positions outside, and returns the number removed, which is that of the range inside the buffer |
| `RingBuffers.RingBuffer.CopyKept` | include/RingBuffer.hpp:95-103 | what the two copy loops collect, with offs + n modulo 2^64 |
| `RingBuffers.RemovalExact` | include/RingBuffer.hpp:94-114 | the loops collect what should remain if and only if offs + n does not wrap to an index inside the buffer; otherwise they collect more than the buffer held |
| `RingBuffers.WithoutExact` | include/RingBuffer.hpp:88-114 | what remains is the sequence without one run, of as many of the `n` elements as there are behind `offs`; putting this run back restores it |
| `RingBuffers.AdditionsKeepNewest` | include/RingBuffer.hpp:71-86 | after any sequence of additions the buffer holds exactly the newest `capacity` of all elements seen, as the rear part of the whole sequence |
| `RingBuffers.RunBounded` | include/RingBuffer.hpp:53-114 | no run of operations exceeds the capacity or lowers it |
| `RingBuffers.RingBuffer.At` | include/RingBuffer.hpp:135-137 | the doubled references yield the i-th oldest element without wrapping, for any rotation |
| `RingBuffers.RingBuffer.Get` | include/RingBuffer.hpp:121-127 | the i-th oldest element, and the out-of-bounds element exactly for the other indices |
| `RingBuffers.RingBuffer.GetNewestElement` | include/RingBuffer.hpp:143-145 | the last element of the plain sequence; index -1 of an empty buffer is out of bounds |
| `RingBuffers.RingBuffer.GetOldestElement` | include/RingBuffer.hpp:151-153 | the first element of the plain sequence |
| `RingBuffers.RingBuffer.GetDataVectorIndex` | include/RingBuffer.hpp:181-191 | a valid storage index or -1 |
| `RingBuffers.RingBuffer.GetRingBufferIndex` | include/RingBuffer.hpp:198-208 | a valid ring index or -1, by subtraction and correction modulo 2^64 |
| `RingBuffers.RingBuffer.IndexMapsInverse` | include/RingBuffer.hpp:181-208 | the two index maps are inverse bijections and relate storage positions to positions in the plain sequence |
| `Statistics.LeastSquaresLine` | include/MeasurementValues.hpp:194-207 | a slope through the mean at the middle has the least squared error of all lines if and only if it is covariance / spread |
| `Statistics.ErrorAboveOptimum` | include/MeasurementValues.hpp:194-207 | every line exceeds the least error by the summed squares of its distance from the best line |
| `Statistics.VarianceIsMeanSquaredDeviation` | include/MeasurementValues.hpp:150-166 | the one-pass variance is the sum of squared deviations from the mean over n - 1 |
| `Statistics.WrappedProductExact` | include/MeasurementValues.hpp:198-206 | the 64-bit product of wrapped factors is the true product modulo 2^64 |
| `Statistics.FullDivisorClosedForm` | include/MeasurementValues.hpp:198-206 | the product that the slope divides by is 4n^2(n^2-1) before wrapping |
| `Statistics.DivisorFits` | include/MeasurementValues.hpp:198-206 | that product fits into 64 bits if and only if n <= 46340 |
| `Statistics.SlopeExact` | include/MeasurementValues.hpp:172-207 | the computed slope is the least-squares slope if and only if there are at most 46340 samples or they have no trend |
| `Measurements.OrderFromInstants` | include/MeasurementValues.hpp:55-73 | stored times of ordered instants within 2^31 of the query appear ordered to the 32-bit differences, and only those |
| `Measurements.FindClosestIndex` | include/MeasurementValues.hpp:55-73 | the binary search ends at an index of least time distance over the whole buffer, for any rotation, and at the later of two equally close ones if times increase; -1 exactly for an empty buffer |
| `Measurements.FindClosestMeasurement` | include/MeasurementValues.hpp:80-86 | a stored measurement that no other is closer than |
| `Measurements.InterpolateClosestValues` | include/MeasurementValues.hpp:93-115 | names the pair of neighbours that is blended; for strictly increasing times it is the pair around the closest measurement, with the earlier neighbour at ties, and no other measurement is closer; one value or none are special cases |
| `Measurements.BlendInBetween` | include/MeasurementValues.hpp:93-115 | the sum of the weights neither wraps nor vanishes and the result lies between the two values |
| `Measurements.InterpolationExact` | include/MeasurementValues.hpp:93-115 | for equally spaced times around the query the result is the piecewise linear interpolation |
| `Measurements.LinearIffBracketing` | include/MeasurementValues.hpp:93-115 | blending a given pair is the linear interpolation for all values if and only if the query lies between its two times |
| `Measurements.LinearIffNearest` | include/MeasurementValues.hpp:93-115 | for increasing times around the query, the result is the piecewise linear interpolation for all values if and only if a sample is met, or each of the two samples around the query is nearer than what lies behind the other one, the earlier side winning ties |
| `Measurements.PairBrackets` | include/MeasurementValues.hpp:98-111 | the same condition decides whether the blended pair is the pair around the query |
| `Measurements.ClosestPairExact` | include/MeasurementValues.hpp:93-115 | for equally spaced times, blending any closest pair of neighbours is the linear interpolation |
| `Measurements.UnevenSpacingDeviates` | include/MeasurementValues.hpp:93-115 | times 0, 100, 101 and query 60: the pair that is blended is on one side of the query and the result exceeds 100 instead of 60 |
| `Measurements.TieTakesEarlier` | include/MeasurementValues.hpp:103 | times 0, 8, 20 and query 10: two pairs are closest, the earlier one is blended, and the result is 0 instead of 2 |
| `Measurements.EstimateMean` | include/MeasurementValues.hpp:121-128 | the sum in storage order gives the mean of the plain sequence |
| `Measurements.EstimateMeanOfRange` | include/MeasurementValues.hpp:135-142 | the mean of the samples of an index range |
| `Measurements.EstimateMeanAndVariance` | include/MeasurementValues.hpp:150-166 | mean and variance of the samples of an index range |
| `Measurements.EstimateLinearRegression` | include/MeasurementValues.hpp:172-207 | mean, variance and slope of the samples of an index range |
| `LineSegmentEstimator.TruncatedSize` | include/LineSegmentEstimator.hpp:160 | the half width of the window is cut to the distance from the nearer end of the series |
| `LineSegmentEstimator.EstimateStatistics` | include/LineSegmentEstimator.hpp:155-198 | one estimate for each sample; which mean, variances and slope these are is told by EstimatedVariance, EstimatedLine and EstimatedAtEnds |
| `LineSegmentEstimator.EstimateSample` | include/LineSegmentEstimator.hpp:160-190 | the body of the loop yields the estimates that EstimatedVariance, EstimatedLine and EstimatedAtEnds characterise |
| `LineSegmentEstimator.EstimatedVariance` | include/LineSegmentEstimator.hpp:155-191 | the estimate has the mean of its window and its mean squared deviation over n - 1, times the integer part of (2w+1)/(n-1); for a window that is not truncated this factor is 1 |
| `LineSegmentEstimator.EstimatedLine` | include/LineSegmentEstimator.hpp:169-191 | the slope is that of the least-squares line of the window, and the variance is its mean squared error, doubled for each sample by which the window is truncated; next to the ends it is FLT_MAX / 1e18 |
| `LineSegmentEstimator.EstimatedAtEnds` | include/LineSegmentEstimator.hpp:158-191 | the first and the last sample stand for themselves, with FLT_MAX for their variances |
| `LineSegmentEstimator.SquaredDistances` | include/LineSegmentEstimator.hpp:175-181 | the loop computes the squared error of the line through the mean at the window centre |
| `LineSegmentEstimator.TotalVariationOfMeanValues` | include/LineSegmentEstimator.hpp:210-254 | finds exactly the right ends of the minima of the penalty, plateaus included and saddles not, at which the means differ; in increasing order, at least 2 apart, all in [w+1, n-w-3] |
| `LineSegmentEstimator.PenaltyOfWindows` | include/LineSegmentEstimator.hpp:200-224 | the penalty sums the variances of two windows that touch without overlap, the first of which ends at the change point |
| `LineSegmentEstimator.MeansDifferBySigma` | include/LineSegmentEstimator.hpp:232-239 | the squared test holds if and only if the means are more than three sigma apart and 9 sigma^2 exceeds 200 |
| `LineSegmentEstimator.DescendingStep` | include/LineSegmentEstimator.hpp:226 | the flag holds exactly if the latest strict change of the penalty was a decrease |
| `LineSegmentEstimator.StepsApart` | include/LineSegmentEstimator.hpp:216-252 | two change points of the mean are never adjacent |
| `LineSegmentEstimator.FindMinima` | include/LineSegmentEstimator.hpp:277-296 | the merging loop splits all window centres into consecutive runs with one entry each, the earliest centre of least cost in its reach |
| `LineSegmentEstimator.CostOfWindows` | include/LineSegmentEstimator.hpp:256-278 | the cost sums the mean squared errors of the least-squares lines of two windows that touch without overlap, the first of which ends at the entry |
| `LineSegmentEstimator.MinimaUnique` | include/LineSegmentEstimator.hpp:277-296 | the estimates determine that partition: it has no second solution |
| `LineSegmentEstimator.MinimaInRange` | include/LineSegmentEstimator.hpp:277-304 | entries are more than two window sizes apart and every later index is inside the estimates |
| `LineSegmentEstimator.TotalVariationOfLinearRegressionValues` | include/LineSegmentEstimator.hpp:266-328 | the change points are, in increasing order, exactly the minima at which the lines differ |
| `LineSegmentEstimator.LinesDifferExactly` | include/LineSegmentEstimator.hpp:306-321 | for positive variances the ratio test amounts to a comparison without divisions |
| `LineSegmentEstimator.LinesDifferAtZero` | include/LineSegmentEstimator.hpp:306-321 | where the ratio divides by zero, for windows of one sample or without variance, the test holds if and only if one of the two extrapolated differences is not zero |
| `LineSegmentEstimator.SameLineDiffersExactly` | include/LineSegmentEstimator.hpp:306-321 | two windows with one and the same flat line pass the test if and only if the square of its level exceeds the threshold, because the level is squared instead of a difference |
| `LineSegmentEstimator.WindowSize` | include/LineSegmentEstimator.hpp:47 | the smaller of the preferred size and a quarter of the series |
| `LineSegmentEstimator.FindChangePointsOfMeanValues` | include/LineSegmentEstimator.hpp:44-61 | exactly the mean steps of the series, at least 2 apart, cutting it into non-empty pieces |
| `LineSegmentEstimator.FindChangePointsOfLinearRegressionValues` | include/LineSegmentEstimator.hpp:69-86 | exactly the differing minima of the series, cutting it into non-empty pieces |
| `LineSegmentEstimator.FindPiecewiseConstantIntervals` | include/LineSegmentEstimator.hpp:94-112 | appends intervals that tile the series, each with the mean of its samples |
| `LineSegmentEstimator.FindPiecewiseLinearIntervals` | include/LineSegmentEstimator.hpp:120-139 | appends intervals that tile the series, each with the mean and the slope of its samples |
| `LineSegmentEstimator.TilesCover` | include/LineSegmentEstimator.hpp:94-139 | in a tiling every sample is in exactly one interval, and intervals are ordered and non-empty |
| `LineSegmentEstimator.MassConserved` | include/LineSegmentEstimator.hpp:94-112 | the sum of length times mean over the constant intervals equals the sum of all samples |
| `CalculatedValueProcessors.CalculateValueDiffs` | src/CalculatedValueProcessor.cpp:9-20 | the difference series holds the newest differences at the indices where both series have the same time |
| `CalculatedValueProcessors.DifferencesOfAligned` | src/CalculatedValueProcessor.cpp:9-20 | series with equal times are subtracted sample by sample |
| `CalculatedValueProcessors.DifferencesFromSamples` | src/CalculatedValueProcessor.cpp:14-19 | a difference occurs if and only if both series have the same time at an index; a missing counterpart passes for a sample of 999999 at time 0 |
| `CalculatedValueProcessors.EndsExact` | src/CalculatedValueProcessor.cpp:124-128 | every reported range is produced twice with its mean, first at the time of its first and then of its last sample, in order |
| `CalculatedValueProcessors.CalculatedValueProcessor.ReportIntervals` | src/CalculatedValueProcessor.cpp:104-129 | the reported ranges are non-empty, disjoint, ascending rear parts of the tiles with their means, and cover exactly the samples newer than `last_time`, which becomes the newest time |
| `CalculatedValueProcessors.CalculatedValueProcessor.FirstNewer` | src/CalculatedValueProcessor.cpp:117-122 | the loop stops at the first newer sample of the interval or at the last sample |
| `CalculatedValueProcessors.CalculatedValueProcessor.EndOfTotalPower` | src/CalculatedValueProcessor.cpp:95-129 | recalculates the signed series, produces its mean, and then the ends of its new intervals, with the same promises for ranges, tiles and `last_time` |
| `CalculatedValueProcessors.NoSampleReportedTwice` | src/CalculatedValueProcessor.cpp:104-129 | what the ranges of a later call of a run contain comes later in the stream of samples, with a later time, than what those of an earlier call contain |
| `CalculatedValueProcessors.ReportedIffNewer` | src/CalculatedValueProcessor.cpp:104-129 | along a run `last_time` holds the lower 32 bits of the newest instant of the call before, and the ranges of a call contain exactly its samples that are newer by their true instants |
| `CalculatedValueProcessors.ReportedExactly` | src/CalculatedValueProcessor.cpp:104-129 | a sample is ever reported if and only if the first call after its arrival still holds it and it is strictly newer than the newest sample of the call before; no other call reports it |
| `CalculatedValueProcessors.AllReportedExactly` | src/CalculatedValueProcessor.cpp:104-129 | a run reports every sample if and only if no call drops a sample unseen and none arrives with the time that `last_time` holds already |
| `CalculatedValueProcessors.LateSampleLost` | src/CalculatedValueProcessor.cpp:104-129 | two samples of one instant in two calls: the second is in no range |
| `CalculatedValueProcessors.LogIsReported` | src/CalculatedValueProcessor.cpp:126-127 | everything a run produces for its intervals is at the time of a sample that the same call reports |
| `AveragingProcessors.AveragingProcessor.constructor` | src/AveragingProcessor.cpp:12-17 | no states, no consumers, the given averaging times |
| `AveragingProcessors.AveragingProcessor.AddObisConsumer` | src/AveragingProcessor.cpp:68-70 | appends to the obis consumers only |
| `AveragingProcessors.AveragingProcessor.AddSpeedwireConsumer` | src/AveragingProcessor.cpp:77-79 | appends to the inverter consumers only |
| `AveragingProcessors.AveragingProcessor.InitializeState` | src/AveragingProcessor.cpp:29-46 | appends a fresh state, with the obis averaging time for an emeter and a thousandth of the speedwire averaging time for an inverter |
| `AveragingProcessors.AveragingProcessor.FindStateIndex` | src/AveragingProcessor.cpp:54-61 | the first state of the serial number, or -1 |
| `AveragingProcessors.AveragingProcessor.Process` | src/AveragingProcessor.cpp:90-126 | advances the timer of the device, creating it if needed, and leaves all other states alone; tells whether the element is forwarded |
| `AveragingProcessors.AveragingProcessor.ConsumeObisData` | src/AveragingProcessor.cpp:134-141 | forwards the element to all obis consumers exactly if the timer says so |
| `AveragingProcessors.AveragingProcessor.ConsumeSpeedwireData` | src/AveragingProcessor.cpp:149-156 | the same for inverter elements |
| `AveragingProcessors.AveragingProcessor.EndOfObisData` | src/AveragingProcessor.cpp:164-172 | forwards the end marker exactly if the last element of the device was forwarded |
| `AveragingProcessors.AveragingProcessor.EndOfSpeedwireData` | src/AveragingProcessor.cpp:180-188 | the same for inverter data |
| `AveragingProcessors.UpdatedState` | src/AveragingProcessor.cpp:90-126 | an element changes the state of its own device only |
| `AveragingProcessors.DevicesIndependent` | src/AveragingProcessor.cpp:90-126 | in any interleaving every device runs its timer as if it were alone |
| `AveragingProcessors.TimerMeetsPromise` | src/AveragingProcessor.cpp:100-125 | the remainder is the elapsed time modulo the averaging time, and a block is forwarded exactly when it completes a period |
| `AveragingProcessors.TimerExact` | src/AveragingProcessor.cpp:100-125 | for unsigned long of 32 and of 64 bits: this holds for all sequences of elements if and only if the averaging time leaves room for one 32-bit step |
| `AveragingProcessors.ForwardedIffPeriodCompleted` | src/AveragingProcessor.cpp:90-188 | over any interleaved run, an element or end marker is forwarded if and only if its averaging time T is 0 or its block completes a period of T, which is the obis time for an emeter and a thousandth of the speedwire time for an inverter |
| `AveragingProcessors.BlockAllOrNothing` | src/AveragingProcessor.cpp:134-188 | all elements of a block and its end marker are forwarded, or none, whatever other devices do in between |
| `AveragingProcessors.LogIsForwarded` | src/AveragingProcessor.cpp:134-188 | consumers get exactly the forwarded events of a run, in order, each consumer of the kind once |
| `AveragingProcessors.DeliveredExactly` | src/AveragingProcessor.cpp:134-188 | a consumer gets an event if and only if the event was forwarded and is of its kind: emeter data for the obis consumers, inverter data for the others |
| `DeviceRegistries.DeviceRegistry.PreRegisterDevice` | src/SpeedwireDiscovery.cpp:56-71 | appends a placeholder for an unknown IP address and changes nothing for a known one |
| `DeviceRegistries.DeviceRegistry.RequireDevice` | src/SpeedwireDiscovery.cpp:80-93 | appends a placeholder for an unknown serial number and changes nothing for a known one |
| `DeviceRegistries.DeviceRegistry.RegisterDevice` | src/SpeedwireDiscovery.cpp:99-137 | replaces what matches, appends if nothing does, removes duplicates; tells whether the device is new or filled a placeholder; for a complete device exactly the superseded entries are gone and the list stays well formed |
| `DeviceRegistries.MatchesExactly` | src/SpeedwireDiscovery.cpp:103-117 | the three branches match an entry if and only if it is the same device, or a placeholder for its address or its serial number, field by field; for a complete device, if and only if the two are in conflict |
| `DeviceRegistries.DeviceRegistry.EraseDuplicates` | src/SpeedwireDiscovery.cpp:124-134 | the nested erasing loops keep the first entry of every device |
| `DeviceRegistries.DeviceRegistry.EraseLater` | src/SpeedwireDiscovery.cpp:126-133 | the inner loop removes all later entries of the same device and keeps the order of the rest |
| `DeviceRegistries.DeviceRegistry.UnregisterDevice` | src/SpeedwireDiscovery.cpp:143-151 | the list without the device, in order |
| `DeviceRegistries.RegisteredInPlace` | src/SpeedwireDiscovery.cpp:99-137 | registering puts the device in the place of the first superseded entry or at the end, removes the other superseded entries, and keeps all else in order |
| `DeviceRegistries.RegisterComplete` | src/SpeedwireDiscovery.cpp:99-137 | afterwards the list holds the complete device with its fields and exactly those entries that are not in conflict with it: neither the same device nor a placeholder that it fills |
| `DeviceRegistries.PlaceholdersFilled` | src/SpeedwireDiscovery.cpp:56-137 | a device registered in advance by address and by serial number fills both placeholders with a single entry in the place of the first |
| `DeviceRegistries.RunWellFormed` | src/SpeedwireDiscovery.cpp:56-151 | no run of operations leaves two entries for one device or a placeholder next to an entry that fills it |
| `DeviceRegistries.UnregisterRemoves` | src/SpeedwireDiscovery.cpp:143-151 | unregistering removes the device and nothing else, and keeps the list well formed |
| `DeviceRegistries.RegisterTwiceExact` | src/SpeedwireDiscovery.cpp:99-137 | registering the same device twice leaves distinct entries if and only if its fields are those of a complete device or of a placeholder |
| `DiscoveryScans.HostAddress` | src/SpeedwireDiscovery.cpp:421-424 | masking and adding yields the address that has the given host number in its last 32 - p bits and agrees with the interface in the first p bits, p being the prefix length |
| `DiscoveryScans.SubnetSizeExact` | src/SpeedwireDiscovery.cpp:409-410 | the number of addresses in a subnet times 2^p is 2^32, for every prefix length p |
| `DiscoveryScans.DiscoveryScanner.SendNextDiscoveryPacket` | src/SpeedwireDiscovery.cpp:312-332 | one step of the counters: multicast, then placeholders, then the scan; unsuccessful exactly if nothing is left |
| `DiscoveryScans.DiscoveryScanner.SendUnicastDiscoveryRequestToSockets` | src/SpeedwireDiscovery.cpp:405-445 | one step of the scan: a request to the next host, which is a host of the subnet of its interface by the prefix length, or the move to the next interface |
| `DiscoveryScans.StepSendsNext` | src/SpeedwireDiscovery.cpp:312-332 | every step sends the head of what remains to be sent and decreases the number of steps left, so the iteration ends |
| `DiscoveryScans.ScanExact` | src/SpeedwireDiscovery.cpp:405-445 | the scan asks exactly the hosts of the subnets with a prefix of p >= 24 bits: the addresses that share the first p bits, without the first and the last of them |
| `DiscoveryScans.ScanWithoutRepetition` | src/SpeedwireDiscovery.cpp:405-445 | it asks no host twice from the same interface |
| `DiscoveryScans.HostsExact` | src/SpeedwireDiscovery.cpp:409-435 | for one interface with a prefix of p >= 24 bits the requests are 2^(32-p) - 2, to all host numbers but those of the network and of broadcast; there are none below 24 bits |
| `DiscoveryScans.DiscoveryScanner.DiscoverDevices` | src/SpeedwireDiscovery.cpp:217-250 | in any number of rounds the loop sends a prefix of three passes with one scan in the first, and all of it after enough rounds; one step in each of the first two rounds and at most ten in the others |
| `DiscoveryScans.DiscoveryScanner.SendBurst` | src/SpeedwireDiscovery.cpp:232-242 | a burst of up to ten steps sends what is due, and an attempt that has nothing left starts the next one |
| `DiscoveryScans.SixStepsAndOneScan` | src/SpeedwireDiscovery.cpp:217-246 | the three attempts make six successful steps and those of a single scan |
| `CommandTokens.IncrementsCycle` | include/SpeedwireCommand.hpp:161-164 | packet ids stay in 0x8000 .. 0xffff, take every value there, and come back after exactly 32768 increments |
| `CommandTokens.TokenRepository.Add` | src/SpeedwireCommand.cpp:465-470 | appends the token, numbered with the last issued packet id, and returns its index |
| `CommandTokens.TokenRepository.Remove` | src/SpeedwireCommand.cpp:472-480 | removes the token at a valid index and nothing for any other index |
| `CommandTokens.RemovedExact` | src/SpeedwireCommand.cpp:472-480 | putting the removed token back at its index restores the list |
| `CommandTokens.TokenRepository.Find` | src/SpeedwireCommand.cpp:482-490 | the first token of the device whose packet id is the given one with bit 15 set, or -1 |
| `CommandTokens.TokenRepository.Clear` | src/SpeedwireCommand.cpp:496-498 | no token remains |
| `CommandTokens.TokenRepository.Expire` | src/SpeedwireCommand.cpp:500-513 | removes exactly the tokens older than the timeout, in 32-bit time, and counts them |
| `CommandTokens.ExpiryExact` | src/SpeedwireCommand.cpp:504 | a token is expired if and only if its true age exceeds the timeout, exactly as long as the age is below 2^32 milliseconds or exceeds the timeout modulo 2^32 too |
| `CommandTokens.UnexpiredByAge` | src/SpeedwireCommand.cpp:500-513 | by their true age: of tokens created less than 2^32 milliseconds ago those remain that are not older than the timeout, across any wrap of the 32-bit clock |
| `CommandTokens.ReplyFindsTokenExact` | src/SpeedwireCommand.cpp:482-490 | a reply is matched to its token if and only if no older open token of the device was issued a multiple of 32768 ids before |
| `CommandTokens.ReplyFindsToken` | src/SpeedwireCommand.cpp:465-513 | after any run of operations, with fewer than 32768 ids issued since the oldest open token, every reply finds its own token |
| `CommandTokens.RemoveTwiceExact` | src/SpeedwireCommand.cpp:472-480 | removing an index twice equals removing it once if and only if it was the last one |
| `CommandTokens.SpeedwireCommand.GetIncrementedPacketID` | include/SpeedwireCommand.hpp:161-164 | advances the static packet id and returns it; the tokens stay in the order of their ids |
| `CommandTokens.SpeedwireCommand.SendQueryRequest` | src/SpeedwireCommand.cpp:108-188 | issues a packet id and opens a token exactly if the request could be sent, as one operation of the run |
| `CommandTokens.SpeedwireCommand.ReceiveResponse` | src/SpeedwireCommand.cpp:275-333 | the receive loop removes the token exactly when a reply to it is accepted, and returns the bytes of that reply, which carries the number of the request up to a multiple of 32768 and comes from the addressed device; for an index without a token, such as -1, exactly when it reads a token that does not exist |
| `CommandTokens.SpeedwireCommand.Query` | src/SpeedwireCommand.cpp:63-102 | a query is answered only by a reply with its own number up to a multiple of 32768 from the addressed device; it then leaves the repository as if only a packet id had been issued, its second removal having no effect; an unanswered one leaves its token behind; error 0x0017 asks for a login |
| `CommandTokens.AcceptedExactly` | src/SpeedwireCommand.cpp:378-459 | a packet is accepted for a token if and only if it is a well-formed inverter packet with its packet id up to bit 15, from its susy id and serial number unless these are the broadcast ones |
| `CommandTokens.AnsweredExactly` | src/SpeedwireCommand.cpp:275-333 | a round ends the wait with an answer if and only if it brings a reply to the token and all rounds before bring nothing or other packets that are not empty |
| `CommandTokens.FailsExactly` | src/SpeedwireCommand.cpp:275-333 | without an answer the result is 0 or -1, and -1 if and only if a poll fails before anything else ends the wait |
| `CommandTokens.AnswerIsOwn` | src/SpeedwireCommand.cpp:378-459 | the answer to the request with sequence number n carries n up to a multiple of 32768 |
| `CommandTokens.SpeedwireCommand.QueryDeviceType` | src/SpeedwireCommand.cpp:194-218 | waits for a reply after a failed send too: it reads a token that does not exist if and only if the socket is valid, the send failed and a valid inverter packet comes first; otherwise its token is treated like that of a query |
| `CommandTokens.ReadsTokenExactly` | src/SpeedwireCommand.cpp:275-333 | without a token, the wait reads one that does not exist if and only if a valid inverter packet comes behind rounds that bring nothing or packets that are not empty |
| `CommandTokens.SpeedwireCommand.FindCommandToken` | src/SpeedwireCommand.cpp:339-354 | in every state that the object reaches, with fewer than 32768 ids issued since the oldest open token, an inverter reply finds the token of its request |
| `CommandTokens.SpeedwireCommand.constructor` | src/SpeedwireCommand.cpp:29-51 | no tokens and packet id 0x8001, from which the invariant starts |
| `CommandTokens.ApplyNumbered` | src/SpeedwireCommand.cpp:465-513 | every operation keeps the tokens in the order of their packet ids |
| `ByteEncoding.RoundTrip16` | src/SpeedwireByteEncoding.cpp:23-101 | 16-bit values read back from any place of any buffer, in both byte orders |
| `ByteEncoding.RoundTrip32` | src/SpeedwireByteEncoding.cpp:31-109 | 32-bit values read back |
| `ByteEncoding.RoundTrip64` | src/SpeedwireByteEncoding.cpp:39-121 | 64-bit values read back |
| `ByteEncoding.SetBack` | src/SpeedwireByteEncoding.cpp:23-56 | setting the value that was read restores the bytes |
| `ByteEncoding.ByteOrder` | src/SpeedwireByteEncoding.cpp:23-95 | a big endian value is the number with its bytes as digits to the base 256, most significant first; a little endian value is that of the reversed bytes |
| `ByteEncoding.SetUint8` | src/SpeedwireByteEncoding.cpp:17-19 | one byte in place, all others unchanged |
| `ByteEncoding.SetUint16BigEndian` | src/SpeedwireByteEncoding.cpp:47-50 | two bytes in place, all others unchanged |
| `ByteEncoding.SetUint32BigEndian` | src/SpeedwireByteEncoding.cpp:53-56 | four bytes in place, all others unchanged |
| `ByteEncoding.SetUint64BigEndian` | src/SpeedwireByteEncoding.cpp:59-65 | eight bytes in place, all others unchanged |
| `ByteEncoding.SetUint16LittleEndian` | src/SpeedwireByteEncoding.cpp:98-101 | two bytes in place, all others unchanged |
| `ByteEncoding.SetUint32LittleEndian` | src/SpeedwireByteEncoding.cpp:104-109 | four bytes in place, all others unchanged |
| `ByteEncoding.SetUint64LittleEndian` | src/SpeedwireByteEncoding.cpp:112-121 | eight bytes in place, all others unchanged |
| `SpeedwireHeaders.ParseExact` | src/SpeedwireHeader.cpp:232-249 | on arbitrary bytes there is exactly one gapless run of tags that fit into the packet and end with the end-of-data tag or where no tag fits |
| `SpeedwireHeaders.OnlyLastEnds` | src/SpeedwireHeader.cpp:268-278 | tag offsets ascend and only the last tag can be an end-of-data tag |
| `SpeedwireHeaders.FirstFromExact` | src/SpeedwireHeader.cpp:252-265 | the search yields the earliest tag of the parse with the id, or none if there is none |
| `SpeedwireHeaders.SpeedwireHeader.FindTagPacket` | src/SpeedwireHeader.cpp:252-265 | the loop ends on arbitrary bytes with the earliest tag of the parse that has the id, wholly inside the packet, or none |
| `SpeedwireHeaders.SpeedwireHeader.FindEodTagPacket` | src/SpeedwireHeader.cpp:268-278 | the loop ends with the end-of-data tag of the parse, or none |
| `SpeedwireHeaders.SpeedwireHeader.GetFirstTagPacket` | src/SpeedwireHeader.cpp:232-238 | the tag at byte 4 if it fits into the packet |
| `SpeedwireHeaders.SpeedwireHeader.GetNextTagPacket` | src/SpeedwireHeader.cpp:241-249 | the tag behind the payload of the given one, if both fit |
| `SpeedwireHeaders.SpeedwireHeader.IsValidData2Packet` | src/SpeedwireHeader.cpp:57-113 | the chain of checks, with its searches, amounts to a closed condition on the bytes |
| `SpeedwireHeaders.SpeedwireHeader.IsValidDiscoveryPacket` | src/SpeedwireHeader.cpp:121-155 | signature, group tag, a discovery tag, and space for an address in the first address tag |
| `SpeedwireHeaders.EncodedTagsAccepted` | src/SpeedwireHeader.cpp:57-155 | a packet built from any tags is valid as a data2 packet, or as a discovery packet, if and only if its first tag is a group tag of four bytes, it has a data2 or a discovery tag, and its first data2 tag has two bytes, or its first address tag, if any, four bytes |
| `SpeedwireHeaders.TagsRoundTrip` | src/SpeedwireHeader.cpp:232-278 | encoded tags with an end-of-data tag, between any bytes, parse back to the same tags; every id is found where it was put |
| `SpeedwireHeaders.PacketRoundTrip` | src/SpeedwireHeader.cpp:232-278 | the same for a whole packet with anything behind it, with the place of every tag |
| `SpeedwireHeaders.PositionExact` | src/SpeedwireHeader.cpp:252-265 | the first tag with an id stands behind all tags before it; an id that no tag has is not found |
| `SpeedwireHeaders.EncodedPacketAccepted` | src/SpeedwireHeader.cpp:52-113 | the full check accepts an encoded data2 packet with anything behind it if and only if the payload has two bytes and no complete tag fits in what is behind |
| `SpeedwireHeaders.AcceptedPacketEncoded` | src/SpeedwireHeader.cpp:52-113 | whatever the full check accepts is the encoding of its group and payload, with no complete tag behind it |
| `SpeedwireHeaders.SpeedwireHeader.SetDefaultHeader` | src/SpeedwireHeader.cpp:170-202 | in place: the head, then the end-of-data tag over whatever it meets, all other bytes unchanged |
| `SpeedwireHeaders.SpeedwireHeader.SetSignatureAndGroup` | src/SpeedwireHeader.cpp:171-181 | signature and group tag in the first twelve bytes |
| `SpeedwireHeaders.SetTagHeader` | include/SpeedwireTagHeader.hpp:52-64 | length and id of a tag in place; its total length is then read back |
| `SpeedwireHeaders.SetData2Fields` | src/SpeedwireHeader.cpp:185-194 | protocol id, and for inverters and extended emeters the long words and control fields |
| `SpeedwireHeaders.DefaultHeaderParts` | src/SpeedwireHeader.cpp:170-202 | every part of the default header, and which parts survive for short lengths |
| `SpeedwireHeaders.DefaultHeaderLayout` | src/SpeedwireHeader.cpp:170-202 | the default header is an encoded packet in front of the rest of the buffer |
| `SpeedwireHeaders.DefaultHeaderAccepted` | src/SpeedwireHeader.cpp:57-211 | the full check accepts it if and only if the length is at least 2 and no tag fits behind it, in particular in a buffer of the default total length; protocol id, long words and control read back |
| `DiscoveryProtocol.ClassifiedByTags` | src/SpeedwireDiscoveryProtocol.cpp:83-171 | a packet built from any tags is classified by the set of their ids, never as both request and response, and valid if it is one of them |
| `DiscoveryProtocol.SignatureRequired` | src/SpeedwireDiscoveryProtocol.cpp:158-171 | bytes that do not begin with the signature pass none of the validity checks, whatever tags are found in them |
| `DiscoveryProtocol.RequestClassified` | src/SpeedwireDiscoveryProtocol.cpp:14-19 | the multicast request is a valid discovery packet, a request and not a response |
| `DiscoveryProtocol.UnicastRequestClassified` | src/SpeedwireDiscoveryProtocol.cpp:45-55 | the unicast request is a full data2 packet of the inverter protocol with 38 payload bytes and their number of long words, and no multicast packet |
| `DiscoveryProtocol.SpeedwireDiscoveryProtocol.constructor` | src/SpeedwireDiscoveryProtocol.cpp:68-76 | looks up the four known tags once |
| `DiscoveryProtocol.SpeedwireDiscoveryProtocol.SetMulticastRequestPacket` | src/SpeedwireDiscoveryProtocol.cpp:188-190 | the request at the begin of the buffer, the rest unchanged |
| `DiscoveryProtocol.SpeedwireDiscoveryProtocol.SetDefaultResponsePacket` | src/SpeedwireDiscoveryProtocol.cpp:220-276 | the encoding of seven tags and the end-of-data tag in 57 bytes, the rest unchanged |
| `DiscoveryProtocol.ResponseParsesBack` | src/SpeedwireDiscoveryProtocol.cpp:220-303 | the response parses back to its tags, whatever follows; the end-of-data tag closes at byte 57 although a tag with id 0 stands at byte 12 |
| `DiscoveryProtocol.ResponseAccepted` | src/SpeedwireDiscoveryProtocol.cpp:91-182 | it is a multicast response, both validity checks accept it, and address and group are the ones given |
| `DiscoveryProtocol.ResponseIsSample` | src/SpeedwireDiscoveryProtocol.cpp:21-29 | for group 1 and the address 192.168.178.22 the response is byte for byte the recorded one |
| `DiscoveryProtocol.AddressOfTags` | src/SpeedwireDiscoveryProtocol.cpp:176-182 | the address read from a packet built from any tags is that of its first address tag if this has four bytes, and 0 otherwise |
| `DiscoveryProtocol.GetDefaultResponsePacketLength` | src/SpeedwireDiscoveryProtocol.cpp:283-303 | building a response and searching its end-of-data tag yields 57, the length of the encoding |
| `EmeterProtocol.ObisLength` | src/SpeedwireEmeterProtocol.cpp:147-153 | between 4 and 259 bytes, so that every step of a walk advances by at least 4 |
| `EmeterProtocol.NextObis` | src/SpeedwireEmeterProtocol.cpp:89-100 | the next element is at least 4 bytes ahead and wholly inside the payload |
| `EmeterProtocol.WalkExact` | src/SpeedwireEmeterProtocol.cpp:80-100 | on arbitrary bytes the elements follow each other without gap or overlap, until no complete one is left |
| `EmeterProtocol.WalkStaysInsideExactly` | src/SpeedwireEmeterProtocol.cpp:80-100 | the walk from the first element stays inside the payload if and only if the payload is shorter than 10 bytes or contains the whole first element that its header announces; payloads of 10 to 13 bytes never do |
| `EmeterProtocol.ElementsExact` | src/SpeedwireEmeterProtocol.cpp:80-100 | from a complete first element the walk takes well-formed elements that are, one after the other, the bytes up to where no complete element is left |
| `EmeterProtocol.ElementsOfWalk` | src/SpeedwireEmeterProtocol.cpp:80-100 | they are what stands at the offsets of the walk |
| `EmeterProtocol.WalkBounded` | src/SpeedwireEmeterProtocol.cpp:80-100 | on arbitrary bytes every step advances by at least 4, every header is inside the payload, and every element is complete except that the first one may be cut |
| `EmeterProtocol.ChainExact` | src/SpeedwireEmeterProtocol.cpp:103-112 | a chain of writes succeeds if and only if all elements fit, and then changes exactly their bytes |
| `EmeterProtocol.ElementsRoundTrip` | src/SpeedwireEmeterProtocol.cpp:80-112 | the walk over written elements yields exactly these, and goes on if and only if a complete element happens to be behind them |
| `EmeterProtocol.FilledPayloadReadsBack` | src/SpeedwireEmeterProtocol.cpp:50-112 | elements that exactly fill the payload read back one by one and no more, next to susy id, serial number and time |
| `EmeterProtocol.PayloadKeepsHeader` | src/SpeedwireEmeterProtocol.cpp:26-41 | for every protocol id: whatever is written to the payload behind a default header, the full check accepts the packet if and only if no tag fits behind it; protocol id, long words and control are kept and the payload is found where it was written |
| `EmeterProtocol.ValueSizes` | src/SpeedwireEmeterProtocol.cpp:137-153 | which element headers announce a value of four and of eight bytes |
| `EmeterProtocol.ValuesReadBack` | src/SpeedwireEmeterProtocol.cpp:137-144 | values of four and eight bytes read back wherever their element stands |
| `EmeterProtocol.SpeedwireEmeterProtocol.constructor` | src/SpeedwireEmeterProtocol.cpp:18-41 | the payload lies behind the fields of the first data2 tag and ends with the tag, if the tag has space for the fields; otherwise its size wraps around and exceeds the packet |
| `EmeterProtocol.SpeedwireEmeterProtocol.SetSusyId` | src/SpeedwireEmeterProtocol.cpp:65-67 | two payload bytes in place, nothing else |
| `EmeterProtocol.SpeedwireEmeterProtocol.SetSerialNumber` | src/SpeedwireEmeterProtocol.cpp:70-72 | four payload bytes in place, nothing else |
| `EmeterProtocol.SpeedwireEmeterProtocol.SetTime` | src/SpeedwireEmeterProtocol.cpp:75-77 | four payload bytes in place, nothing else |
| `EmeterProtocol.SpeedwireEmeterProtocol.GetFirstObisElement` | src/SpeedwireEmeterProtocol.cpp:80-86 | byte 10 of the payload, if the payload is that long |
| `EmeterProtocol.SpeedwireEmeterProtocol.GetNextObisElement` | src/SpeedwireEmeterProtocol.cpp:89-100 | the next complete element of the payload |
| `EmeterProtocol.SpeedwireEmeterProtocol.SetObisElement` | src/SpeedwireEmeterProtocol.cpp:103-112 | copies the element if it fits, returns where the next one goes, and changes no byte outside the payload |

## Left out

- Sockets, poll, receive dispatching, interface queries, logging and printing: input and output.
- The time-out clock of the discovery loop: the number of rounds is a parameter, so termination is stated for the requests sent, not for time.
- Rounding of floating-point numbers: sums, means and slopes are exact reals; FLT_MAX is its exact value.
- RingBuffers.RingBuffer.RemoveElements: requires that offs + n does not wrap to an index inside the buffer, because otherwise the source writes references behind the end of its vector; RemovalExact says what the copy loops do in that case.
- RingBuffers.RingBuffer.constructor: capacities below 2^63, which std::vector never exceeds; copying a ring buffer, whose references then point into the original, is not modelled.
- RingBuffers.RingBuffer.AddNewElement: the growth of a vector of capacity 0 to capacity 1 is that of the usual standard libraries.
- Statistics.SlopeExact: fewer than 2^64 / 24 samples, beyond which a further product wraps; no memory holds as many.
- LineSegmentEstimator.EstimateStatistics: requires that four windows fit into the series, which both callers establish.
- LineSegmentEstimator.EstimatedLine: windows of less than 23170 samples on each side, beyond which the slope wraps as SlopeExact says; the library uses at most 10.
- LineSegmentEstimator.FindPiecewiseConstantIntervals: requires at least one sample, because num_values - 1 wraps for an empty series.
- LineSegmentEstimator.FindPiecewiseLinearIntervals: requires at least one sample, like the constant case.
- LineSegmentEstimator.TotalVariationOfLinearRegressionValues: the reserved capacity of the vector of minima is not modelled.
- CalculatedValueProcessors.CalculatedValueProcessor.EndOfTotalPower: requires a non-empty difference series, because for an empty one the mean is not a number and the change point search runs behind its estimates; the look-up in the map of measurements, and the branches for the three phases, which only produce a mean, are left out.
- AveragingProcessors.AveragingProcessor.Process: the time of the newest measurement of an element is an input; elements without a numeric measurement have none and are not modelled.
- DeviceRegistries.RegisterComplete: for complete devices; RegisterTwiceExact covers all others.
- completeDeviceInformation and the reception of discovery packets: network queries; the counting functions of the registry only filter the list.
- DiscoveryScans.HostAddress: prefix lengths 1 to 32; the mask of the host bits is written as subtracting a remainder, and the address conversion from and to text is left out.
- CommandTokens.SpeedwireCommand.ReceiveResponse: the length, protocol, destination and peer address checks of a reply are one Boolean of the received packet.
- CommandTokens.SpeedwireCommand.SendQueryRequest: the bytes of the request packet are not modelled.
- DiscoveryProtocol.SpeedwireDiscoveryProtocol.SetDefaultResponsePacket: as in the source, the tags that the object looked up before are not looked up again; the round trip is stated for the bytes, which a new object reads.
- Unicast discovery requests and responses: their classification reads inverter register fields, and the inverter protocol is not part of this model.
- EmeterProtocol.SpeedwireEmeterProtocol.constructor: requires a data2 tag with space for a protocol id, as the validity check promises; without one the source works on a null pointer.
- EmeterProtocol.WalkBounded: requires the header of the first element inside the payload; WalkStaysInsideExactly says for which payloads it is.
- CommandTokens.SpeedwireCommand.QueryDeviceType: what is done with an accepted reply is not modelled, and where a token is read that does not exist the model stops.
- SpeedwireEncryptionProtocol, SpeedwireAuthentication and SpeedwireStatus; the tables of predefined measurements, devices and models; all toString functions: data and text.
