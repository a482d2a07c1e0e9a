/** Which records one call of expirations removes from the front of the queue. */
module Retention {
  import opened MetricsItem

  /** A record is young enough to keep when it lies strictly in the past and at most
      `maxAgeNs` before `now`. A record stamped at or after `now` is not. */
  predicate IsFresh(e: Entry, now: int, maxAgeNs: int)
    ensures IsFresh(e, now, maxAgeNs) <==> now - maxAgeNs <= e.item.timestamp < now
  {
    now > e.item.timestamp && now - e.item.timestamp <= maxAgeNs
  }

  /** The age scan stops at the record that was just saved (if any). */
  predicate IsJustSaved(e: Entry, justSaved: Option<nat>)
    ensures justSaved == None ==> !IsJustSaved(e, justSaved)
    ensures IsJustSaved(e, justSaved) ==> justSaved.Some? && justSaved.value == e.handle
  {
    justSaved == Some(e.handle)
  }

  /** The number expirations erases for the count limit, before the `more` flag is known. */
  function OverLimit(n: nat, maxRecords: nat, cap: nat): (o: nat)
    ensures o <= cap && o <= n
    ensures maxRecords > 0 && n > maxRecords ==> o == if n - maxRecords > cap then cap else n - maxRecords
    ensures !(maxRecords > 0 && n > maxRecords) ==> o == 0
  {
    if maxRecords > 0 && n > maxRecords then
      (if n - maxRecords > cap then cap else n - maxRecords)
    else 0
  }

  /** The age scan from index `i`: the index it stops at, and whether it stopped because
      the per-call cap was reached with a stale record still in front. */
  function AgeScan(q: seq<Entry>, i: nat, cap: nat, maxAgeNs: int, now: int, justSaved: Option<nat>): (r: (nat, bool))
    requires i <= |q| && i <= cap
    ensures i <= r.0 <= |q| && r.0 <= cap
    decreases |q| - i
  {
    if i == |q| then (i, false)
    else if IsJustSaved(q[i], justSaved) then (i, false)
    else if IsFresh(q[i], now, maxAgeNs) then (i, false)
    else if i >= cap then (i, true)
    else AgeScan(q, i + 1, cap, maxAgeNs, now, justSaved)
  }

  /** The scan passes over stale records only, never the one just saved; it reports the cap
      exactly when it reached it with a removable record still in front, and otherwise it
      stopped at the end, at a fresh record or at the record just saved. */
  lemma {:induction false} AgeScanSpec(q: seq<Entry>, i: nat, cap: nat, maxAgeNs: int, now: int, justSaved: Option<nat>)
    requires i <= |q| && i <= cap
    ensures var r := AgeScan(q, i, cap, maxAgeNs, now, justSaved);
      (forall k :: i <= k < r.0 ==> !IsFresh(q[k], now, maxAgeNs) && !IsJustSaved(q[k], justSaved))
      && (r.1 ==> r.0 == cap && r.0 < |q| && !IsFresh(q[r.0], now, maxAgeNs) && !IsJustSaved(q[r.0], justSaved))
      && (!r.1 ==> r.0 == |q| || IsFresh(q[r.0], now, maxAgeNs) || IsJustSaved(q[r.0], justSaved))
    decreases |q| - i
  {
    if i < |q| && !IsJustSaved(q[i], justSaved) && !IsFresh(q[i], now, maxAgeNs) && i < cap {
      AgeScanSpec(q, i + 1, cap, maxAgeNs, now, justSaved);
    }
  }

  /** byCount + byAge records are erased from the front, byCount of them for the count limit
      and byAge for age; `more` says that records eligible for removal remain. */
  datatype Expiry = Expiry(byCount: nat, byAge: nat, more: bool)

  /** What one call of expirations does to the queue `q`. */
  function PlanExpiry(q: seq<Entry>, maxRecords: nat, maxAgeNs: int, cap: nat, now: int, justSaved: Option<nat>): (p: Expiry)
    ensures p.byCount == OverLimit(|q|, maxRecords, cap)
    ensures p.byCount + p.byAge <= cap && p.byCount + p.byAge <= |q|
    ensures maxAgeNs <= 0 ==> p.byAge == 0
  {
    var overlimit := OverLimit(|q|, maxRecords, cap);
    var tooMany := maxRecords > 0 && |q| > maxRecords && |q| - maxRecords > cap;
    if tooMany then
      Expiry(overlimit, 0, true)
    else if maxAgeNs > 0 then
      var (i, more) := AgeScan(q, overlimit, cap, maxAgeNs, now, justSaved);
      Expiry(overlimit, i - overlimit, more)
    else
      Expiry(overlimit, 0, false)
  }

  /** The plan, from the values one pass computes: the count excess, the age scan's stop
      and the flag. */
  lemma PlanFromScan(q: seq<Entry>, maxRecords: nat, maxAgeNs: int, cap: nat, now: int, justSaved: Option<nat>,
                     overlimit: nat, expired: nat, more: bool)
    requires overlimit == OverLimit(|q|, maxRecords, cap)
    requires maxRecords > 0 && |q| > maxRecords + cap ==> more && expired == 0
    requires !(maxRecords > 0 && |q| > maxRecords + cap) && maxAgeNs > 0 ==>
               overlimit <= |q| && (overlimit + expired, more) == AgeScan(q, overlimit, cap, maxAgeNs, now, justSaved)
    requires !(maxRecords > 0 && |q| > maxRecords + cap) && maxAgeNs <= 0 ==> expired == 0 && !more
    ensures PlanExpiry(q, maxRecords, maxAgeNs, cap, now, justSaved) == Expiry(overlimit, expired, more)
  {
  }

  /** One call never erases more than the cap, nor more than there is; when it asks for more,
      it erased exactly the cap. */
  lemma ExpiryBounded(q: seq<Entry>, maxRecords: nat, maxAgeNs: int, cap: nat, now: int, justSaved: Option<nat>)
    ensures var p := PlanExpiry(q, maxRecords, maxAgeNs, cap, now, justSaved);
      var n := p.byCount + p.byAge;
      n <= cap && n <= |q| && (p.more ==> n == cap)
  {
    var overlimit := OverLimit(|q|, maxRecords, cap);
    if maxAgeNs > 0 && overlimit <= |q| {
      AgeScanSpec(q, overlimit, cap, maxAgeNs, now, justSaved);
    }
  }

  /** The count limit: far over it, exactly the cap goes, all of it for the count; otherwise
      the excess goes, and the limit holds afterwards, whatever the age scan asks for. */
  lemma ExpiryCountLimit(q: seq<Entry>, maxRecords: nat, maxAgeNs: int, cap: nat, now: int, justSaved: Option<nat>)
    ensures var p := PlanExpiry(q, maxRecords, maxAgeNs, cap, now, justSaved);
      (maxRecords > 0 && |q| > maxRecords + cap ==> p == Expiry(cap, 0, true))
      && (!(maxRecords > 0 && |q| > maxRecords + cap) ==>
            p.byCount == (if maxRecords > 0 && |q| > maxRecords then |q| - maxRecords else 0))
      && (!p.more && maxRecords > 0 ==> |q| - (p.byCount + p.byAge) <= maxRecords)
      && (maxRecords > 0 && |q| <= maxRecords + cap ==> |q| - (p.byCount + p.byAge) <= maxRecords)
  {
  }

  /** The age limit: only stale records that were not just saved are erased for age, and
      unless more is asked for, the record left in front is there for a reason. */
  lemma ExpiryAgeLimit(q: seq<Entry>, maxRecords: nat, maxAgeNs: int, cap: nat, now: int, justSaved: Option<nat>)
    ensures var p := PlanExpiry(q, maxRecords, maxAgeNs, cap, now, justSaved);
      var n := p.byCount + p.byAge;
      (maxAgeNs <= 0 ==> p.byAge == 0)
      && (forall k :: p.byCount <= k < n ==> !IsFresh(q[k], now, maxAgeNs) && !IsJustSaved(q[k], justSaved))
      && (!p.more && maxAgeNs > 0 ==> n == |q| || IsFresh(q[n], now, maxAgeNs) || IsJustSaved(q[n], justSaved))
  {
    var overlimit := OverLimit(|q|, maxRecords, cap);
    if maxAgeNs > 0 && overlimit <= |q| {
      AgeScanSpec(q, overlimit, cap, maxAgeNs, now, justSaved);
    }
  }

  /** `more` holds exactly when the cap cut the call short with removable records left. */
  lemma ExpiryMore(q: seq<Entry>, maxRecords: nat, maxAgeNs: int, cap: nat, now: int, justSaved: Option<nat>)
    ensures var p := PlanExpiry(q, maxRecords, maxAgeNs, cap, now, justSaved);
      p.more <==>
        (maxRecords > 0 && |q| > maxRecords + cap)
        || (maxAgeNs > 0 && p.byCount + p.byAge == cap && cap < |q|
            && !IsFresh(q[cap], now, maxAgeNs) && !IsJustSaved(q[cap], justSaved))
  {
    var overlimit := OverLimit(|q|, maxRecords, cap);
    if maxAgeNs > 0 && overlimit <= |q| {
      AgeScanSpec(q, overlimit, cap, maxAgeNs, now, justSaved);
    }
  }

  /** The record just saved at the back of the queue survives its own expiration pass. */
  lemma ExpirySparesJustSaved(q: seq<Entry>, maxRecords: nat, maxAgeNs: int, cap: nat, now: int, justSaved: Option<nat>)
    requires |q| > 0 && IsJustSaved(q[|q| - 1], justSaved)
    ensures var p := PlanExpiry(q, maxRecords, maxAgeNs, cap, now, justSaved);
      p.byCount + p.byAge < |q|
  {
    var overlimit := OverLimit(|q|, maxRecords, cap);
    if maxAgeNs > 0 && overlimit <= |q| {
      AgeScanSpec(q, overlimit, cap, maxAgeNs, now, justSaved);
    }
  }
}
