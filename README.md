# MediaMetricsService record store, in Dafny

This project models the in-memory record store of Android's media metrics service,
`services/mediametrics/MediaMetricsService.cpp`. Clients submit metrics items over binder.
The service does four things with them through the stages below:
- it decides how far to trust the caller;
- it rewrites the item's identity (pid, uid, package, timestamp);
- it refuses items under keys an untrusted caller may not use, and empty items;
- it queues the rest.

The queue is `mItems`, oldest first. Each save runs one expiration pass, which removes records
from the front once the queue is over `mMaxRecords`, or while the front record is older than
`mMaxRecordAgeNs` or stamped at or after the current time. One pass removes at most `mMaxRecordsExpiredAtOnce` records. When records
that could go are left over, a background loop repeats the pass.

Records under a pullable key (`"mediadrm"`) are also remembered by weak reference in
`mPullableItems`. When statsd pulls the matching atom, those that are still alive are
handed over. `dump` reads its arguments, then does one of:
- prints help;
- clears the queue;
- lists the queue, filtered by `--since` and `--prefix`.

Modules, in dependency order:

- `CString` (cstring.dfy): what C routines see of a `std::string`, which is everything before the first NUL; prefix tests.
- `Decimal` (decimal.dfy): `std::to_string` of a uid and the value of a decimal numeral, with the round trip.
- `MetricsItem` (metrics_item.dfy): the item, the 32-bit `uid_t`/`pid_t` ranges, the status codes, and the queue entry. The entry pairs an item with a handle that stands for the identity of its shared pointer.
- `Policy` (policy.dfy): `roundTime`, `useUidForPackage`, the sanitised package, the trusted uids, `isContentValid`, `isPullable` and `atomTagToKey`.
- `Admission` (admission.dfy): the trust, identity and validation rules of `submitInternal`, as one function from the submitted item to the saved item or the error status.
- `Retention` (retention.dfy): what one call of `expirations` removes, as a function of the queue (`PlanExpiry`), and what is proved about it.
- `Query` (query.dfy): the filter of `dumpQueue`, weak-reference locking, and the records `pullItems` hands over.
- `DumpArgs` (dump_args.dfy): `dump`'s argument loop, including `strtoll`'s reading of `--since`.
- `Service` (service.dfy): the class `MediaMetricsService`, with the source's fields and the methods that change them.

The class invariant says five things:
- every saved record is either still queued or counted as discarded (`mItemsFinalized == mItemsDiscarded + |mItems|`);
- records leave only from the front, so the k-th queued record carries handle `mItemsDiscarded + k`;
- every weak reference names a record saved earlier;
- the per-call cap `mMaxRecordsExpiredAtOnce` is positive;
- the records discarded for count and for age together are at most all the discarded ones (`mItemsDiscardedCount + mItemsDiscardedExpire <= mItemsDiscarded`).

## Model

| member | source | states |
|---|---|---|
| CString.CStr | services/mediametrics/MediaMetricsService.cpp:73-81 | The C view of a string is its longest NUL-free prefix: it stops at the first NUL, and a string without NUL is seen whole |
| CString.CStrAtNul | services/mediametrics/MediaMetricsService.cpp:73-81 | Text after a NUL is invisible to the C routines |
| Decimal.NatToDecimal | services/mediametrics/MediaMetricsService.cpp:95 | `std::to_string` of a uid is a non-empty string of digits with no leading zero |
| Decimal.DecimalRoundTrip | services/mediametrics/MediaMetricsService.cpp:95 | Reading back the numeral written for n gives n |
| Decimal.DecimalInjective | services/mediametrics/MediaMetricsService.cpp:95 | Distinct uids get distinct numerals |
| Policy.CDiv | services/mediametrics/MediaMetricsService.cpp:65 | C++ integer division truncates toward zero: for a non-negative dividend the quotient is the largest q with q·b at most a, for a negative one the smallest q with q·b at least a |
| Policy.RoundTime | services/mediametrics/MediaMetricsService.cpp:63-66 | The result is a whole number of seconds within int64. For times from -0.5 s upward it is the nearest second, halves rounding up; below that, truncation rounds toward zero |
| Policy.UseUidForPackage | services/mediametrics/MediaMetricsService.cpp:69-87 | Use the uid exactly when all five hold on the C view of the names: the package has a dot; it is not `android.*`; the installer is not `com.android.*` or `com.google.*`; the installer is not `preload` |
| Policy.UidForPackageIgnoresTail | services/mediametrics/MediaMetricsService.cpp:73-81 | Appending a NUL and any text to either name leaves the decision unchanged |
| Policy.InternalPackagesKeepName | services/mediametrics/MediaMetricsService.cpp:73-76 | A package without a dot, or an `android.*` package, is reported by its own name and version |
| Policy.SanitizedPackage | services/mediametrics/MediaMetricsService.cpp:90-99 | When the uid is used, the name is the canonical decimal numeral of the uid (its value is the uid, no leading zero) and the version is 0; otherwise the package manager's name and version |
| Policy.IsTrustedUid | services/mediametrics/MediaMetricsService.cpp:129-141 | A caller is trusted exactly when its uid is one of the nine fixed uids 1000, 1002, 1006, 1013, 1019, 1031, 1040, 1041 and 1046 (system, bluetooth, camera, media, drm, mediadrm, media_ex, audioserver, media_codec) |
| Policy.ContentAllowed | services/mediametrics/MediaMetricsService.cpp:501-531 | Items from a trusted caller always pass; an untrusted caller's item with an empty key never does |
| Policy.IsContentValid | services/mediametrics/MediaMetricsService.cpp:501-534 | Valid iff one holds: trusted; the key starts `audio.`, `drm.vendor.` or `mediadrm.`; the key is one of the eleven listed keys |
| Policy.IsPullable | services/mediametrics/MediaMetricsService.cpp:553-559 | Pullable exactly for the key `mediadrm` |
| Policy.AtomTagToKey | services/mediametrics/MediaMetricsService.cpp:562-569 | A key exists exactly for MEDIA_DRM_ACTIVITY_INFO, and that key is pullable |
| Admission.WithIdentity | services/mediametrics/MediaMetricsService.cpp:128-154 | Only pid and uid change. An untrusted caller's item gets the caller's pid and uid; a trusted caller's set values are kept and an unset pid or uid becomes the caller's; either way each value is the item's or the caller's |
| Admission.WithPackage | services/mediametrics/MediaMetricsService.cpp:156-163 | Only package name and version change. A trusted caller's named item is left alone; otherwise they become the sanitised package of the item's uid |
| Admission.WithTimestamp | services/mediametrics/MediaMetricsService.cpp:190-198 | Only the timestamp changes; it becomes now, unless a trusted caller set a non-zero one, which is kept |
| Admission.Admit | services/mediametrics/MediaMetricsService.cpp:128-198 | PERMISSION_DENIED iff the content rule rejects the key; BAD_VALUE iff it accepts but the item is empty; otherwise accepted with key and count kept. Untrusted callers get their own pid, uid, the sanitised package and the current time. Trusted callers keep their values, and only an unset pid/uid, an empty package or a zero timestamp is filled in |
| DumpArgs.DropSpaces | services/mediametrics/MediaMetricsService.cpp:282 | The result is no longer than the input and does not start with white space; text not starting with white space is unchanged |
| DumpArgs.DroppedAreSpaces | services/mediametrics/MediaMetricsService.cpp:282 | Only leading white space is removed, and the rest is kept as it is |
| DumpArgs.ClampInt64 | services/mediametrics/MediaMetricsService.cpp:282 | The result is within int64: values already within int64 are unchanged, larger ones saturate to INT64_MAX and smaller ones to INT64_MIN |
| DumpArgs.StrToLL | services/mediametrics/MediaMetricsService.cpp:279-283 | A value read is always within int64 |
| DumpArgs.StrToLLReadsNumerals | services/mediametrics/MediaMetricsService.cpp:279-283 | A value is read exactly when the C view, after its leading blanks, is an optional sign followed by one or more digits running to its end (`endp != p` and `*endp == '\0'`) |
| DumpArgs.ParseSince | services/mediametrics/MediaMetricsService.cpp:276-290 | A non-zero bound comes only from text that `strtoll` reads to its end |
| DumpArgs.StrToLLValue | services/mediametrics/MediaMetricsService.cpp:282 | A numeral after leading blanks and before the first NUL, with `+`, `-` or no sign, reads as its digits' value, negated after `-`, saturated to int64 |
| DumpArgs.NumeralText | services/mediametrics/MediaMetricsService.cpp:279-282 | A numeral, bare or after a minus sign, has no NUL and no leading white space |
| DumpArgs.StrToLLOfDigits | services/mediametrics/MediaMetricsService.cpp:282-283 | A numeral reads as its value, and with a minus sign as its negation, saturating at the int64 bounds |
| DumpArgs.StrToLLOfDecimal | services/mediametrics/MediaMetricsService.cpp:282-283 | The numeral of n reads back as n, saturated to int64 |
| DumpArgs.SinceOfDecimal | services/mediametrics/MediaMetricsService.cpp:276-290 | `--since X` with X > 0 is X seconds after the epoch; with -X it is X seconds before now |
| DumpArgs.SinceOfNonNumeral | services/mediametrics/MediaMetricsService.cpp:282-284 | Text that is not a signed or unsigned run of digits after its leading blanks and up to its first NUL is not read, and gives 0 (no bound) |
| DumpArgs.SinceOfZero | services/mediametrics/MediaMetricsService.cpp:283-284 | A numeral whose digits are all zeros, with or without a sign, reads as 0 and gives 0 (no bound) |
| DumpArgs.SinceOfTrailingBlank | services/mediametrics/MediaMetricsService.cpp:283-284 | `"60 "` gives 0: the trailing blank leaves `*endp != '\0'` |
| DumpArgs.SinceOfMisplacedSign | services/mediametrics/MediaMetricsService.cpp:283-284 | `"1-2"` and `"--5"` give 0 |
| DumpArgs.SinceOfEmptyExamples | services/mediametrics/MediaMetricsService.cpp:283-284 | A sign alone and the empty text give 0: no digit is read, so `endp == p` |
| DumpArgs.SinceOfZeroExamples | services/mediametrics/MediaMetricsService.cpp:283-284 | `"0"`, `"-0"` and `"+00"` give 0 |
| Decimal.ZerosValue | services/mediametrics/MediaMetricsService.cpp:282 | A numeral of zeros only is worth 0 |
| DumpArgs.SinceOfBadText | services/mediametrics/MediaMetricsService.cpp:283-284 | Text with a character other than a blank, sign or digit before its first NUL gives 0 (no bound) |
| DumpArgs.Parse | services/mediametrics/MediaMetricsService.cpp:246-294 | `--help`, once read, stays set, and is set only when the word `--help` occurs among the arguments |
| DumpArgs.ParseAppend | services/mediametrics/MediaMetricsService.cpp:245-294 | Arguments are read left to right: a list with no `--help` and no dangling option passes its options on to what follows |
| DumpArgs.LastValueWins | services/mediametrics/MediaMetricsService.cpp:271-290 | The last `--since` and the last `--prefix` decide the values |
| DumpArgs.HelpStops | services/mediametrics/MediaMetricsService.cpp:253-270 | Nothing after `--help` is read |
| DumpArgs.FlagsStay | services/mediametrics/MediaMetricsService.cpp:246-294 | Once set, `--all`, `--clear`, `--heap` and `--unreachable` stay set |
| DumpArgs.ParseAt | services/mediametrics/MediaMetricsService.cpp:246-294 | One step of the loop at position i, in terms of the rest of the arguments |
| DumpArgs.ParseDumpArgs | services/mediametrics/MediaMetricsService.cpp:238-294 | The loop's result equals the left-to-right reading `Parse` of the arguments |
| Query.Listed | services/mediametrics/MediaMetricsService.cpp:405-412 | With no prefix, or an empty one, a record is listed exactly when it is not older than the time bound |
| Query.Selected | services/mediametrics/MediaMetricsService.cpp:404-412 | No more items are listed than are queued |
| Query.SelectedSpec | services/mediametrics/MediaMetricsService.cpp:404-412 | Exactly the queued items at or after `sinceNs`, under the prefix when one is given, are listed |
| Query.SelectedAppend | services/mediametrics/MediaMetricsService.cpp:404-415 | Listing two stretches of the queue in turn lists their items in queue order |
| Query.SelectedAll | services/mediametrics/MediaMetricsService.cpp:405 | With `sinceNs == 0` and no prefix, every record stamped at or after the epoch is listed |
| Query.QueueListing | services/mediametrics/MediaMetricsService.cpp:399-415 | "empty" exactly for an empty queue; otherwise no more lines than records, slots numbered from 0, and every listed item passes the filter |
| Query.Find | services/mediametrics/MediaMetricsService.cpp:589 | A reference whose handle no queued record carries does not lock |
| Query.FindSpec | services/mediametrics/MediaMetricsService.cpp:589 | A weak reference locks exactly when a queued record has its handle, and yields that record |
| Query.FindConsecutive | services/mediametrics/MediaMetricsService.cpp:589 | In a queue whose handles count up from a base, the reference `base + k` locks to the k-th record |
| Query.LiveItems | services/mediametrics/MediaMetricsService.cpp:588-592 | No more items are handed over than there are references |
| Query.LiveItemsSpec | services/mediametrics/MediaMetricsService.cpp:588-592 | Every item handed over is queued, and the record of every live reference is handed over; when every reference is alive, each one yields an item |
| Query.LiveItemsAllAlive | services/mediametrics/MediaMetricsService.cpp:588-592 | When every reference is alive, exactly their records are handed over, one for one and in list order |
| Query.LiveItemsAppend | services/mediametrics/MediaMetricsService.cpp:588-592 | References are visited in list order |
| Retention.OverLimit | services/mediametrics/MediaMetricsService.cpp:429-436 | The count excess is the number above `mMaxRecords`, capped at the per-call limit, and 0 when the limit is off or not exceeded |
| Retention.IsFresh | services/mediametrics/MediaMetricsService.cpp:450 | A record is young enough to stay exactly when its timestamp lies in [now - maxAge, now): a record stamped at or after now counts as stale |
| Retention.IsJustSaved | services/mediametrics/MediaMetricsService.cpp:447 | Only the record whose handle is the one just saved stops the scan, and no record does when the pass was not started by a save |
| Retention.AgeScan | services/mediametrics/MediaMetricsService.cpp:443-460 | The scan stops between its start and the end of the queue, never past the cap |
| Retention.AgeScanSpec | services/mediametrics/MediaMetricsService.cpp:443-460 | It passes only stale records that were not just saved. It reports "more" exactly when it stops at the cap with a removable record in front. Otherwise it stopped at the end, a fresh record or the just-saved one |
| Retention.PlanExpiry | services/mediametrics/MediaMetricsService.cpp:426-461 | A pass erases the count excess first, and in all no more than the cap or than is queued; with the age limit off, nothing goes for age |
| Retention.PlanFromScan | services/mediametrics/MediaMetricsService.cpp:426-461 | The count excess, the scan's stop and the flag, as the pass computes them, make up the plan |
| Retention.ExpiryBounded | services/mediametrics/MediaMetricsService.cpp:424-471 | A pass never erases more than the cap or than is queued; when it asks for more, it erased exactly the cap |
| Retention.ExpiryCountLimit | services/mediametrics/MediaMetricsService.cpp:429-436 | Far over the limit, exactly the cap goes, all for count; otherwise the excess goes, and the limit holds afterwards, even when the age scan asks for more |
| Retention.ExpiryAgeLimit | services/mediametrics/MediaMetricsService.cpp:439-461 | Only stale, not-just-saved records go for age. Unless more is asked for, the record left in front is fresh or just saved, or the queue is empty |
| Retention.ExpiryMore | services/mediametrics/MediaMetricsService.cpp:426-461 | "More" holds iff the queue is more than the cap over the limit, or the age scan reached the cap with a removable record in front |
| Retention.ExpirySparesJustSaved | services/mediametrics/MediaMetricsService.cpp:447-449 | The record just saved at the back survives its own pass |
| Service.Get | services/mediametrics/MediaMetricsService.cpp:490 | `std::map::operator[]`: the list under the key, or an empty list for a key not yet present |
| Service.MediaMetricsService.QueuedRecordLocks | services/mediametrics/MediaMetricsService.cpp:483-492 | A weak reference to a queued record locks to that record |
| Service.MediaMetricsService.constructor | services/mediametrics/MediaMetricsService.cpp:101-107 | Limits 2500 records, 28 hours, 50 per call; empty queue and zero counters |
| Service.MediaMetricsService.Expirations | services/mediametrics/MediaMetricsService.cpp:424-471 | The queue loses the front records that `PlanExpiry` names. The counters grow by the same numbers, split into count and age. The result is the plan's flag |
| Service.MediaMetricsService.PlanPass | services/mediametrics/MediaMetricsService.cpp:426-461 | The two checks and the age loop compute exactly `PlanExpiry` of the queue, within its length |
| Service.MediaMetricsService.EraseFront | services/mediametrics/MediaMetricsService.cpp:463-469 | The front records go, and are counted as discarded for count and for age |
| Service.MediaMetricsService.SaveItem | services/mediametrics/MediaMetricsService.cpp:483-498 | The record is appended under a fresh handle, and remembered by reference when its key is pullable. The finalized count grows by one, one pass expires exactly what `PlanExpiry` names, and the new record stays last in the queue |
| Service.MediaMetricsService.SubmitInternal | services/mediametrics/MediaMetricsService.cpp:117-217 | The call is counted as submitted. A refusal changes nothing else and returns `Admit`'s status. An accepted item is saved as `Admit` rewrote it, and NO_ERROR is returned |
| Service.MediaMetricsService.ProcessExpirations | services/mediametrics/MediaMetricsService.cpp:473-481 | Passes run until one asks for no more. Only records from the front are removed, and each is counted once. Afterwards the count limit holds and the front record is fresh |
| Service.MediaMetricsService.DumpQueue | services/mediametrics/MediaMetricsService.cpp:397-417 | "empty" exactly for an empty queue; otherwise the listed records in queue order, numbered from 0 |
| Service.MediaMetricsService.Clear | services/mediametrics/MediaMetricsService.cpp:299-302 | The queue is emptied and every record in it counted as discarded |
| Service.MediaMetricsService.Dump | services/mediametrics/MediaMetricsService.cpp:219-307 | Without the permission: a denial and no change. With `--help`: help and no change. With `--clear`: the queue is cleared. Otherwise the queue listing under the parsed `--since` and `--prefix` |
| Service.MediaMetricsService.PullItems | services/mediametrics/MediaMetricsService.cpp:579-595 | Unknown atom: skip, no change. Otherwise the live records behind the key's references are handed over and the list is emptied. SUCCESS iff statsd took one of them |

## Left out

- The binder calling identity, the DUMP permission check and the clock (`systemTime`) are parameters. The package manager's `UidInfo::getInfo` is a lookup function parameter.
- SubmitInternal: one clock reading serves both the timestamp and the expiration pass. The source reads the clock twice, once in `submitInternal` and once in `expirations`.
- ProcessExpirations: the one-second `sleep`, the mutex and the `std::async` future are not modelled. The clock reading of each pass is a parameter. Whether saveItem starts a background pass is returned as `more`, not acted on.
- `dump2Statsd`, both the call in `submitInternal` and the one per pulled record, is a parameter `reported` or is left out. Statsd registration (`registerStatsdCallbacksIfNeeded`) is left out because it only registers a callback.
- `mAudioAnalytics` is not part of this model: its `submit`, `clear` and dump sections, the heat map, health and spatializer logs, and the statsd log dump. The same holds for `ValidateId` and the `metrics.manager` log-session-id registration.
- dumpHeaders and the text formatting of dump are left out. The model returns the options and the numbered records, not the printed lines. `--all`, `--heap` and `--unreachable` are parsed, but their output is not modelled.
- The `release`/`dup` memory management and the destructor are left out. submitInternal rewrites the caller's item in place: when `release` is false, the caller keeps the rewritten pid, uid and package, even after PERMISSION_DENIED or BAD_VALUE. `Refused` carries no item, so the model does not capture that.
- Entry handles stand for shared-pointer identity. A weak reference is modelled as alive exactly while its record is queued. In the source, a record removed from the queue can stay alive while another component holds it.
- ParseSince: does not model the signed 64-bit overflow of `sec * NANOS_PER_SECOND` for more than about 292 years of seconds. Values of `strtoll` outside int64 saturate, as `strtoll` does, but `errno` is not modelled.
- RoundTime: its precondition excludes the inputs where `timeNs + NANOS_PER_SECOND / 2` overflows int64. Counters are unbounded naturals.
- CString.StartsWith: the source's `startsWith` is taken as a plain prefix test on the key.
- Item timestamps and package version codes are unbounded integers, not int64. A trusted caller may set any timestamp, so the signed overflow of `now - when` in the age test (line 450) is not modelled.
- Keys, package names and `dump` arguments are sequences of Unicode characters. The `String16` to `String8` conversion of the arguments (lines 274 and 279) is not modelled, and the byte-wise `strncmp` and `==` on them are taken as comparisons of characters.
- The AID_* uid values and MEDIA_DRM_ACTIVITY_INFO (10201) come from headers that are not part of this model.
