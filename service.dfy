/** MediaMetricsService's in-memory record store: admission, retention, dump and statsd pulls. */
module Service {
  import opened CString
  import opened MetricsItem
  import opened Policy
  import opened Admission
  import opened Retention
  import opened Query
  import opened DumpArgs

  /** kMaxRecordAgeNs (28 hours), kMaxRecords and kMaxExpiredAtOnce. */
  const MaxRecordAgeNs: int := 28 * 3600 * NanosPerSecond
  const MaxRecords: nat := 2500
  const MaxExpiredAtOnce: nat := 50

  /** `m[key]` of a std::map: the list under `key`, or a fresh empty one. */
  function Get(m: map<string, seq<nat>>, key: string): (r: seq<nat>)
    ensures key in m ==> r == m[key]
    ensures key !in m ==> r == []
  {
    if key in m then m[key] else []
  }

  datatype PullResult = PullSuccess | PullSkip

  /** What dump reports: it refuses, prints help, clears the queue, or lists it. */
  datatype DumpOutput =
    | PermissionDenial
    | Help
    | Cleared
    | Report(sinceNs: int, prefix: Option<string>, queue: QueueDump)

  class MediaMetricsService {
    const maxRecords: nat               // mMaxRecords
    const maxRecordAgeNs: int           // mMaxRecordAgeNs
    const maxRecordsExpiredAtOnce: nat  // mMaxRecordsExpiredAtOnce

    var items: seq<Entry>                        // mItems, oldest first
    var pullableItems: map<string, seq<nat>>     // mPullableItems, as weak references (handles)
    var itemsSubmitted: nat                      // mItemsSubmitted
    var itemsFinalized: nat                      // mItemsFinalized
    var itemsDiscarded: nat                      // mItemsDiscarded
    var itemsDiscardedCount: nat                 // mItemsDiscardedCount
    var itemsDiscardedExpire: nat                // mItemsDiscardedExpire

    /** Every saved record is either still queued or counted as discarded, and records leave
        only from the front, so the k-th queued record is the (itemsDiscarded + k)-th saved one;
        every weak reference names a record saved earlier. */
    ghost predicate Valid()
      reads this
    {
      maxRecordsExpiredAtOnce > 0
      && (forall k :: 0 <= k < |items| ==> items[k].handle == itemsDiscarded + k)
      && (forall key, j :: key in pullableItems && 0 <= j < |pullableItems[key]| ==>
            pullableItems[key][j] < itemsFinalized)
      && itemsFinalized == itemsDiscarded + |items|
      && itemsDiscardedCount + itemsDiscardedExpire <= itemsDiscarded
    }

    /** A weak reference to a queued record locks to that record and no other: handles are
        never reused while a record is queued. */
    lemma QueuedRecordLocks(k: nat)
      requires Valid() && k < |items|
      ensures Find(items, items[k].handle) == Some(items[k].item)
    {
      FindConsecutive(items, itemsDiscarded, k);
    }

    constructor ()
      ensures Valid()
      ensures maxRecords == MaxRecords && maxRecordAgeNs == MaxRecordAgeNs
      ensures maxRecordsExpiredAtOnce == MaxExpiredAtOnce
      ensures items == [] && pullableItems == map[]
      ensures itemsSubmitted == 0 && itemsFinalized == 0
      ensures itemsDiscarded == 0 && itemsDiscardedCount == 0 && itemsDiscardedExpire == 0
    {
      maxRecords := MaxRecords;
      maxRecordAgeNs := MaxRecordAgeNs;
      maxRecordsExpiredAtOnce := MaxExpiredAtOnce;
      items := [];
      pullableItems := map[];
      itemsSubmitted, itemsFinalized := 0, 0;
      itemsDiscarded, itemsDiscardedCount, itemsDiscardedExpire := 0, 0, 0;
    }

    /** expirations: erase from the front, first for the count limit and then for age, at most
        mMaxRecordsExpiredAtOnce records; `justSaved` is the handle of the item just inserted. */
    method Expirations(justSaved: Option<nat>, now: int) returns (more: bool)
      requires Valid()
      modifies this
      ensures Valid()
      ensures var p := PlanExpiry(old(items), maxRecords, maxRecordAgeNs, maxRecordsExpiredAtOnce, now, justSaved);
        items == old(items)[p.byCount + p.byAge..] && more == p.more
        && itemsDiscarded == old(itemsDiscarded) + (p.byCount + p.byAge)
        && itemsDiscardedCount == old(itemsDiscardedCount) + p.byCount
        && itemsDiscardedExpire == old(itemsDiscardedExpire) + p.byAge
      ensures pullableItems == old(pullableItems)
      ensures itemsSubmitted == old(itemsSubmitted) && itemsFinalized == old(itemsFinalized)
    {
      var overlimit, expired;
      overlimit, expired, more := PlanPass(justSaved, now);
      var toErase := overlimit + expired;
      if toErase > 0 {
        EraseFront(overlimit, expired);
      }
    }

    /** The deciding half of expirations: how many records to erase for the count limit and
        how many for age, and whether more remain to reclaim. */
    method PlanPass(justSaved: Option<nat>, now: int) returns (overlimit: nat, expired: nat, more: bool)
      ensures Expiry(overlimit, expired, more)
                == PlanExpiry(items, maxRecords, maxRecordAgeNs, maxRecordsExpiredAtOnce, now, justSaved)
      ensures overlimit + expired <= |items|
    {
      more := false;

      // the count limit: how many records over kMaxRecords go first
      overlimit := 0;
      if maxRecords > 0 && |items| > maxRecords {
        overlimit := |items| - maxRecords;
        if overlimit > maxRecordsExpiredAtOnce {
          more := true;
          overlimit := maxRecordsExpiredAtOnce;
        }
      }

      // the age limit: stale records behind them, up to the per-call cap
      expired := 0;
      if !more && maxRecordAgeNs > 0 {
        ghost var scan := AgeScan(items, overlimit, maxRecordsExpiredAtOnce, maxRecordAgeNs, now, justSaved);
        var i := overlimit;
        while i < |items|
          invariant overlimit <= i <= |items| && i <= maxRecordsExpiredAtOnce
          invariant AgeScan(items, i, maxRecordsExpiredAtOnce, maxRecordAgeNs, now, justSaved) == scan
          invariant !more
        {
          var when := items[i].item.timestamp;
          if Some(items[i].handle) == justSaved {
            break;
          }
          if now > when && now - when <= maxRecordAgeNs {
            break;  // the realtime clock need not be monotonic
          }
          if i >= maxRecordsExpiredAtOnce {
            more := true;  // one too many: more are left to reclaim
            break;
          }
          i := i + 1;
        }
        expired := i - overlimit;
      }
      PlanFromScan(items, maxRecords, maxRecordAgeNs, maxRecordsExpiredAtOnce, now, justSaved, overlimit, expired, more);
    }

    /** The erase step of expirations: drop `byCount + byAge` records from the front and
        count them as discarded, for the count limit and for age. */
    method EraseFront(byCount: nat, byAge: nat)
      requires Valid() && byCount + byAge <= |items|
      modifies this
      ensures Valid()
      ensures items == old(items)[byCount + byAge..]
      ensures itemsDiscarded == old(itemsDiscarded) + (byCount + byAge)
      ensures itemsDiscardedCount == old(itemsDiscardedCount) + byCount
      ensures itemsDiscardedExpire == old(itemsDiscardedExpire) + byAge
      ensures pullableItems == old(pullableItems)
      ensures itemsSubmitted == old(itemsSubmitted) && itemsFinalized == old(itemsFinalized)
    {
      var toErase := byCount + byAge;
      itemsDiscardedCount := itemsDiscardedCount + byCount;
      itemsDiscardedExpire := itemsDiscardedExpire + byAge;
      itemsDiscarded := itemsDiscarded + toErase;
      items := items[toErase..];  // the oldest records go
    }

    /** saveItem: queue the record, remember a weak reference for pullable keys, count it as
        finalized and run one expiration pass. `more` asks for a background pass. */
    method SaveItem(item: Item, now: int) returns (more: bool)
      requires Valid()
      modifies this
      ensures Valid()
      ensures var h := old(itemsFinalized);
        var q := old(items) + [Entry(h, item)];
        var p := PlanExpiry(q, maxRecords, maxRecordAgeNs, maxRecordsExpiredAtOnce, now, Some(h));
        items == q[p.byCount + p.byAge..] && more == p.more
        && itemsDiscarded == old(itemsDiscarded) + (p.byCount + p.byAge)
        && itemsDiscardedCount == old(itemsDiscardedCount) + p.byCount
        && itemsDiscardedExpire == old(itemsDiscardedExpire) + p.byAge
      ensures pullableItems ==
        if IsPullable(item.key)
        then old(pullableItems)[item.key := Get(old(pullableItems), item.key) + [old(itemsFinalized)]]
        else old(pullableItems)
      ensures itemsFinalized == old(itemsFinalized) + 1 && itemsSubmitted == old(itemsSubmitted)
      // the new record is not expired by its own pass
      ensures items != [] && items[|items| - 1] == Entry(old(itemsFinalized), item)
    {
      var h := itemsFinalized;
      items := items + [Entry(h, item)];
      if IsPullable(item.key) {
        pullableItems := pullableItems[item.key := Get(pullableItems, item.key) + [h]];
      }
      itemsFinalized := itemsFinalized + 1;
      ExpirySparesJustSaved(items, maxRecords, maxRecordAgeNs, maxRecordsExpiredAtOnce, now, Some(h));
      more := Expirations(Some(h), now);
    }

    /** submitInternal: fix up the item's identity, package and time according to the caller's
        trust, refuse what the content rule rejects or what is empty, and save the rest. */
    method SubmitInternal(item: Item, caller: Caller, lookup: Uid -> UidInfo, now: int) returns (status: Status)
      requires Valid()
      modifies this
      ensures Valid()
      ensures itemsSubmitted == old(itemsSubmitted) + 1
      ensures var a := Admit(item, caller, lookup, now);
        (a.Refused? ==>
           status == a.status
           && items == old(items) && pullableItems == old(pullableItems)
           && itemsFinalized == old(itemsFinalized) && itemsDiscarded == old(itemsDiscarded)
           && itemsDiscardedCount == old(itemsDiscardedCount)
           && itemsDiscardedExpire == old(itemsDiscardedExpire))
        && (a.Accepted? ==>
           var h := old(itemsFinalized);
           var q := old(items) + [Entry(h, a.item)];
           var p := PlanExpiry(q, maxRecords, maxRecordAgeNs, maxRecordsExpiredAtOnce, now, Some(h));
           status == NoError
           && items == q[p.byCount + p.byAge..] && items != [] && items[|items| - 1] == Entry(h, a.item)
           && itemsFinalized == old(itemsFinalized) + 1
           && itemsDiscarded == old(itemsDiscarded) + (p.byCount + p.byAge)
           && itemsDiscardedCount == old(itemsDiscardedCount) + p.byCount
           && itemsDiscardedExpire == old(itemsDiscardedExpire) + p.byAge
           && pullableItems ==
                if IsPullable(item.key)
                then old(pullableItems)[item.key := Get(old(pullableItems), item.key) + [h]]
                else old(pullableItems))
    {
      var isTrusted := IsTrustedUid(caller.uid);
      var it := item;
      if isTrusted {
        // a trusted caller keeps the values it set; only unset ones are filled in
        if it.uid == UidUnset {
          it := it.(uid := caller.uid);
        }
        if it.pid == PidUnset {
          it := it.(pid := caller.pid);
        }
      } else {
        it := it.(pid := caller.pid, uid := caller.uid);
      }

      if !isTrusted || it.pkgName == [] {
        var (pkgName, version) := SanitizedPackage(it.uid, lookup(it.uid));
        it := it.(pkgName := pkgName, pkgVersionCode := version);
      }

      itemsSubmitted := itemsSubmitted + 1;

      var valid := IsContentValid(it, isTrusted);
      if !valid {
        return PermissionDenied;
      }
      if it.count == 0 {
        return BadValue;
      }
      if !isTrusted || it.timestamp == 0 {
        it := it.(timestamp := now);
      }
      assert Admit(item, caller, lookup, now) == Accepted(it);
      var _ := SaveItem(it, now);
      status := NoError;
    }

    /** processExpirations without its one-second sleeps: expiration passes, the k-th at time
        clock(k), until one reports nothing more to reclaim. */
    method ProcessExpirations(clock: nat -> int) returns (passes: nat)
      requires Valid()
      modifies this
      ensures Valid()
      ensures passes > 0
      ensures |items| <= |old(items)| && items == old(items)[|old(items)| - |items|..]
      ensures itemsDiscarded == old(itemsDiscarded) + (|old(items)| - |items|)
      ensures itemsDiscardedCount + itemsDiscardedExpire
                == old(itemsDiscardedCount) + old(itemsDiscardedExpire) + (|old(items)| - |items|)
      // afterwards both limits hold
      ensures maxRecords > 0 ==> |items| <= maxRecords
      ensures maxRecordAgeNs > 0 && items != [] ==> IsFresh(items[0], clock(passes - 1), maxRecordAgeNs)
      ensures pullableItems == old(pullableItems)
      ensures itemsSubmitted == old(itemsSubmitted) && itemsFinalized == old(itemsFinalized)
    {
      passes := 0;
      var more := true;
      while more
        invariant Valid()
        invariant |items| <= |old(items)| && items == old(items)[|old(items)| - |items|..]
        invariant itemsDiscarded == old(itemsDiscarded) + (|old(items)| - |items|)
        invariant itemsDiscardedCount + itemsDiscardedExpire
                    == old(itemsDiscardedCount) + old(itemsDiscardedExpire) + (|old(items)| - |items|)
        invariant !more ==> passes > 0
        invariant !more && maxRecords > 0 ==> |items| <= maxRecords
        invariant !more && maxRecordAgeNs > 0 && items != [] ==>
                    IsFresh(items[0], clock(passes - 1), maxRecordAgeNs)
        invariant pullableItems == old(pullableItems)
        invariant itemsSubmitted == old(itemsSubmitted) && itemsFinalized == old(itemsFinalized)
        decreases |items|, more
      {
        ExpiryBounded(items, maxRecords, maxRecordAgeNs, maxRecordsExpiredAtOnce, clock(passes), None);
        ExpiryCountLimit(items, maxRecords, maxRecordAgeNs, maxRecordsExpiredAtOnce, clock(passes), None);
        ExpiryAgeLimit(items, maxRecords, maxRecordAgeNs, maxRecordsExpiredAtOnce, clock(passes), None);
        more := Expirations(None, clock(passes));
        passes := passes + 1;
        assert items == old(items)[|old(items)| - |items|..];
      }
    }

    /** dumpQueue: the records not older than `sinceNs` and under `prefix`, numbered from 0. */
    method DumpQueue(sinceNs: int, prefix: Option<string>) returns (d: QueueDump)
      ensures d == QueueListing(items, sinceNs, prefix)
      ensures d == Empty <==> items == []
      ensures d.Lines? ==> forall j :: 0 <= j < |d.lines| ==> d.lines[j].slot == j
    {
      if items == [] {
        return Empty;
      }
      var lines: seq<DumpLine> := [];
      var slot: nat := 0;
      for k := 0 to |items|
        invariant slot == |lines|
        invariant lines == Numbered(Selected(items[..k], sinceNs, prefix))
      {
        var item := items[k].item;
        assert items[..k + 1] == items[..k] + [items[k]];
        SelectedAppend(items[..k], [items[k]], sinceNs, prefix);
        assert Selected([items[k]], sinceNs, prefix) ==
               if Listed(item, sinceNs, prefix) then [item] else [];
        if item.timestamp < sinceNs {
          continue;  // sinceNs == 0 shows every record stamped at or after the epoch
        }
        if prefix.Some? && !StartsWith(item.key, prefix.value) {
          continue;
        }
        ghost var sel := Selected(items[..k], sinceNs, prefix);
        assert Numbered(sel + [item]) == Numbered(sel) + [DumpLine(slot, item)];
        lines := lines + [DumpLine(slot, item)];
        slot := slot + 1;
      }
      assert items[..|items|] == items;
      return Lines(lines);
    }

    /** `dump --clear`: every queued record is discarded. */
    method Clear()
      requires Valid()
      modifies this
      ensures Valid()
      ensures items == [] && itemsDiscarded == old(itemsDiscarded) + |old(items)|
      ensures pullableItems == old(pullableItems)
      ensures itemsSubmitted == old(itemsSubmitted) && itemsFinalized == old(itemsFinalized)
      ensures itemsDiscardedCount == old(itemsDiscardedCount)
      ensures itemsDiscardedExpire == old(itemsDiscardedExpire)
    {
      itemsDiscarded := itemsDiscarded + |items|;
      items := [];
    }

    /** dump: refuse callers without the DUMP permission, read the arguments, then print help,
        clear the queue, or list it. */
    method Dump(args: seq<string>, permitted: bool, now: int) returns (out: DumpOutput)
      requires Valid()
      modifies this
      ensures Valid()
      ensures pullableItems == old(pullableItems)
      ensures itemsSubmitted == old(itemsSubmitted) && itemsFinalized == old(itemsFinalized)
      ensures itemsDiscardedCount == old(itemsDiscardedCount)
      ensures itemsDiscardedExpire == old(itemsDiscardedExpire)
      ensures var opts := Parse(args, NoOptions, now);
        var prefix := if opts.prefix == [] then None else Some(opts.prefix);
        if !permitted || opts.help then
          out == (if !permitted then PermissionDenial else Help)
          && items == old(items) && itemsDiscarded == old(itemsDiscarded)
        else if opts.clear then
          out == Cleared && items == [] && itemsDiscarded == old(itemsDiscarded) + |old(items)|
        else
          out == Report(opts.sinceNs, prefix, QueueListing(items, opts.sinceNs, prefix))
          && items == old(items) && itemsDiscarded == old(itemsDiscarded)
    {
      if !permitted {
        return PermissionDenial;
      }
      var opts := ParseDumpArgs(args, now);
      if opts.help {
        return Help;
      }
      if opts.clear {
        Clear();
        return Cleared;
      }
      var prefix := if opts.prefix == [] then None else Some(opts.prefix);
      var queue := DumpQueue(opts.sinceNs, prefix);
      out := Report(opts.sinceNs, prefix, queue);
    }

    /** pullItems: hand every still-queued record of the atom's key to statsd (`reported` tells
        whether the atom was written) and empty the key's list. */
    method PullItems(atomTag: int, reported: Item -> bool) returns (result: PullResult, pulled: seq<Item>)
      requires Valid()
      modifies this
      ensures Valid()
      ensures items == old(items)
      ensures itemsSubmitted == old(itemsSubmitted) && itemsFinalized == old(itemsFinalized)
      ensures itemsDiscarded == old(itemsDiscarded)
      ensures itemsDiscardedCount == old(itemsDiscardedCount)
      ensures itemsDiscardedExpire == old(itemsDiscardedExpire)
      ensures AtomTagToKey(atomTag) == "" ==>
                result == PullSkip && pulled == [] && pullableItems == old(pullableItems)
      ensures AtomTagToKey(atomTag) != "" ==>
                var key := AtomTagToKey(atomTag);
                pulled == LiveItems(Get(old(pullableItems), key), items)
                && pullableItems == old(pullableItems)[key := []]
                && (result == PullSuccess <==> exists j :: 0 <= j < |pulled| && reported(pulled[j]))
    {
      var key := AtomTagToKey(atomTag);
      if key == "" {
        return PullSkip, [];
      }
      var handles := Get(pullableItems, key);
      var dumped := false;
      pulled := [];
      for j := 0 to |handles|
        invariant unchanged(this)
        invariant pulled == LiveItems(handles[..j], items)
        invariant dumped <==> exists t :: 0 <= t < |pulled| && reported(pulled[t])
      {
        assert handles[..j + 1] == handles[..j] + [handles[j]];
        LiveItemsAppend(handles[..j], [handles[j]], items);
        var alive := Find(items, handles[j]);  // weak_ptr::lock
        if alive.Some? {
          var written := reported(alive.value);  // dump2Statsd
          dumped := dumped || written;
          ghost var before := pulled;
          pulled := pulled + [alive.value];
          assert forall t :: 0 <= t < |before| ==> pulled[t] == before[t];
          assert pulled[|before|] == alive.value;
        }
      }
      assert handles[..|handles|] == handles;
      pullableItems := pullableItems[key := []];
      result := if dumped then PullSuccess else PullSkip;
    }
  }
}
