/** What dumpQueue lists and what pullItems hands to statsd. */
module Query {
  import opened CString
  import opened MetricsItem

  /** dumpQueue's filter: not older than `sinceNs` and, when a prefix is given, under it. */
  predicate Listed(item: Item, sinceNs: int, prefix: Option<string>)
    ensures (prefix == None || prefix == Some([])) ==> (Listed(item, sinceNs, prefix) <==> sinceNs <= item.timestamp)
  {
    item.timestamp >= sinceNs && (prefix.Some? ==> StartsWith(item.key, prefix.value))
  }

  /** The listed items of the queue, in queue order. */
  function Selected(q: seq<Entry>, sinceNs: int, prefix: Option<string>): (r: seq<Item>)
    ensures |r| <= |q|
    decreases |q|
  {
    if q == [] then []
    else if Listed(q[0].item, sinceNs, prefix) then [q[0].item] + Selected(q[1..], sinceNs, prefix)
    else Selected(q[1..], sinceNs, prefix)
  }

  /** Exactly the listed items of the queue are selected. */
  lemma {:induction false} SelectedSpec(q: seq<Entry>, sinceNs: int, prefix: Option<string>)
    ensures forall x :: x in Selected(q, sinceNs, prefix) ==> Listed(x, sinceNs, prefix)
    ensures forall x :: x in Selected(q, sinceNs, prefix) ==> exists k :: 0 <= k < |q| && q[k].item == x
    ensures forall k :: 0 <= k < |q| && Listed(q[k].item, sinceNs, prefix) ==> q[k].item in Selected(q, sinceNs, prefix)
    decreases |q|
  {
    if q != [] {
      SelectedSpec(q[1..], sinceNs, prefix);
      assert forall k :: 1 <= k < |q| ==> q[k] == q[1..][k - 1];
    }
  }

  /** Selecting from two stretches of the queue one after the other keeps their order. */
  lemma {:induction false} SelectedAppend(a: seq<Entry>, b: seq<Entry>, sinceNs: int, prefix: Option<string>)
    ensures Selected(a + b, sinceNs, prefix) == Selected(a, sinceNs, prefix) + Selected(b, sinceNs, prefix)
    decreases |a|
  {
    if a == [] {
      assert a + b == b;
    } else {
      assert (a + b)[0] == a[0] && (a + b)[1..] == a[1..] + b;
      SelectedAppend(a[1..], b, sinceNs, prefix);
    }
  }

  /** With no time bound and no prefix, every item is listed. */
  lemma {:induction false} SelectedAll(q: seq<Entry>)
    requires forall k :: 0 <= k < |q| ==> q[k].item.timestamp >= 0
    ensures Selected(q, 0, None) == seq(|q|, k requires 0 <= k < |q| => q[k].item)
    decreases |q|
  {
    if q != [] {
      SelectedAll(q[1..]);
    }
  }

  /** One printed line of dumpQueue: its slot number and the item. */
  datatype DumpLine = DumpLine(slot: nat, item: Item)

  /** dumpQueue's answer: "empty" for an empty queue, otherwise the numbered lines. */
  datatype QueueDump = Empty | Lines(lines: seq<DumpLine>)

  /** Slots count the listed items from 0. */
  function Numbered(s: seq<Item>): seq<DumpLine>
  {
    seq(|s|, j requires 0 <= j < |s| => DumpLine(j, s[j]))
  }

  function QueueListing(q: seq<Entry>, sinceNs: int, prefix: Option<string>): (r: QueueDump)
    ensures r.Empty? <==> q == []
    ensures r.Lines? ==> |r.lines| <= |q|
    ensures r.Lines? ==> forall j :: 0 <= j < |r.lines| ==>
              r.lines[j].slot == j && Listed(r.lines[j].item, sinceNs, prefix)
  {
    if q == [] then Empty
    else
      SelectedSpec(q, sinceNs, prefix);
      Lines(Numbered(Selected(q, sinceNs, prefix)))
  }

  /** What locking a weak reference yields: the record with that handle, while it is queued. */
  function Find(q: seq<Entry>, handle: nat): (r: Option<Item>)
    ensures (forall k :: 0 <= k < |q| ==> q[k].handle != handle) ==> r == None
    decreases |q|
  {
    if q == [] then None
    else if q[0].handle == handle then Some(q[0].item)
    else Find(q[1..], handle)
  }

  /** A weak reference locks exactly when a queued record carries its handle, and then it
      yields that record. */
  lemma {:induction false} FindSpec(q: seq<Entry>, handle: nat)
    ensures Find(q, handle).Some? <==> exists k :: 0 <= k < |q| && q[k].handle == handle
    ensures Find(q, handle).Some? ==> exists k :: 0 <= k < |q| && q[k] == Entry(handle, Find(q, handle).value)
    decreases |q|
  {
    if q != [] && q[0].handle != handle {
      FindSpec(q[1..], handle);
      assert forall k :: 1 <= k < |q| ==> q[k] == q[1..][k - 1];
    }
  }

  /** In a queue whose handles count up from `base`, the reference `base + k` locks to the
      k-th record and to no other. */
  lemma {:induction false} FindConsecutive(q: seq<Entry>, base: nat, k: nat)
    requires k < |q|
    requires forall j :: 0 <= j < |q| ==> q[j].handle == base + j
    ensures Find(q, base + k) == Some(q[k].item)
    decreases k
  {
    if k > 0 {
      assert q[0].handle == base;
      assert forall j :: 0 <= j < |q| - 1 ==> q[1..][j] == q[j + 1];
      FindConsecutive(q[1..], base + 1, k - 1);
      assert q[1..][k - 1] == q[k];
    }
  }

  /** The items behind a list of weak references that are still alive, in list order. */
  function LiveItems(handles: seq<nat>, q: seq<Entry>): (r: seq<Item>)
    ensures |r| <= |handles|
    decreases |handles|
  {
    if handles == [] then []
    else
      match Find(q, handles[0])
      case Some(x) => [x] + LiveItems(handles[1..], q)
      case None => LiveItems(handles[1..], q)
  }

  /** Every pulled item is queued, the record of every live reference is pulled, and when
      every reference is alive, each one yields an item. */
  lemma {:induction false} LiveItemsSpec(handles: seq<nat>, q: seq<Entry>)
    ensures forall x :: x in LiveItems(handles, q) ==> exists k :: 0 <= k < |q| && q[k].item == x
    ensures forall j :: 0 <= j < |handles| && Find(q, handles[j]).Some? ==>
              Find(q, handles[j]).value in LiveItems(handles, q)
    ensures (forall j :: 0 <= j < |handles| ==> Find(q, handles[j]).Some?) ==> |LiveItems(handles, q)| == |handles|
    decreases |handles|
  {
    if handles != [] {
      LiveItemsSpec(handles[1..], q);
      FindSpec(q, handles[0]);
      assert forall j :: 1 <= j < |handles| ==> handles[j] == handles[1..][j - 1];
    }
  }

  /** When every reference is alive, their records are pulled one for one, in list order. */
  lemma {:induction false} LiveItemsAllAlive(handles: seq<nat>, q: seq<Entry>)
    requires forall j :: 0 <= j < |handles| ==> Find(q, handles[j]).Some?
    ensures LiveItems(handles, q) == seq(|handles|, j requires 0 <= j < |handles| => Find(q, handles[j]).value)
    decreases |handles|
  {
    if handles != [] {
      assert forall j :: 1 <= j < |handles| ==> handles[j] == handles[1..][j - 1];
      LiveItemsAllAlive(handles[1..], q);
    }
  }

  lemma {:induction false} LiveItemsAppend(a: seq<nat>, b: seq<nat>, q: seq<Entry>)
    ensures LiveItems(a + b, q) == LiveItems(a, q) + LiveItems(b, q)
    decreases |a|
  {
    if a == [] {
      assert a + b == b;
    } else {
      assert (a + b)[0] == a[0] && (a + b)[1..] == a[1..] + b;
      LiveItemsAppend(a[1..], b, q);
    }
  }
}
