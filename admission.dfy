/** The admission rules of submitInternal: who is trusted, which identity fields are
    overwritten, and which items are refused. */
module Admission {
  import opened MetricsItem
  import opened Policy

  /** The binder caller; a one-way call has pid 0. */
  datatype Caller = Caller(pid: Pid, uid: Uid)

  /** The outcome of admission: the item as it will be saved, or the status it is refused with. */
  datatype Admission = Accepted(item: Item) | Refused(status: Status)

  /** Trusted callers only fill in a pid or uid left unset; others always get the caller's. */
  function WithIdentity(item: Item, caller: Caller, isTrusted: bool): (r: Item)
    ensures r == item.(pid := r.pid, uid := r.uid)
    ensures !isTrusted ==> r.pid == caller.pid && r.uid == caller.uid
    ensures isTrusted ==> (item.pid != PidUnset ==> r.pid == item.pid) && (item.uid != UidUnset ==> r.uid == item.uid)
    ensures r.pid == item.pid || r.pid == caller.pid
    ensures r.uid == item.uid || r.uid == caller.uid
    ensures isTrusted && item.pid == PidUnset ==> r.pid == caller.pid
    ensures isTrusted && item.uid == UidUnset ==> r.uid == caller.uid
  {
    if isTrusted then
      item.(uid := if item.uid == UidUnset then caller.uid else item.uid,
            pid := if item.pid == PidUnset then caller.pid else item.pid)
    else
      item.(pid := caller.pid, uid := caller.uid)
  }

  /** Untrusted callers, and items without a package name, get the sanitised package of the item's uid. */
  function WithPackage(item: Item, isTrusted: bool, lookup: Uid -> UidInfo): (r: Item)
    ensures r == item.(pkgName := r.pkgName, pkgVersionCode := r.pkgVersionCode)
    ensures isTrusted && item.pkgName != [] ==> r == item
    ensures !isTrusted || item.pkgName == [] ==>
              (r.pkgName, r.pkgVersionCode) == SanitizedPackage(item.uid, lookup(item.uid))
  {
    if !isTrusted || item.pkgName == [] then
      var (pkg, version) := SanitizedPackage(item.uid, lookup(item.uid));
      item.(pkgName := pkg, pkgVersionCode := version)
    else
      item
  }

  /** Untrusted callers, and items without a timestamp, are stamped with the current time. */
  function WithTimestamp(item: Item, isTrusted: bool, now: int): (r: Item)
    ensures r == item.(timestamp := r.timestamp)
    ensures r.timestamp == now || (isTrusted && r.timestamp == item.timestamp != 0)
    ensures r.timestamp != 0 || now == 0
    ensures isTrusted && item.timestamp != 0 ==> r.timestamp == item.timestamp
    ensures !isTrusted || item.timestamp == 0 ==> r.timestamp == now
  {
    if !isTrusted || item.timestamp == 0 then item.(timestamp := now) else item
  }

  /** submitInternal from the calling identity to the saved item or the error status. */
  function Admit(item: Item, caller: Caller, lookup: Uid -> UidInfo, now: int): (r: Admission)
    ensures r == Refused(PermissionDenied) <==> !ContentAllowed(item.key, IsTrustedUid(caller.uid))
    ensures r == Refused(BadValue) <==> ContentAllowed(item.key, IsTrustedUid(caller.uid)) && item.count == 0
    ensures r.Accepted? <==> ContentAllowed(item.key, IsTrustedUid(caller.uid)) && item.count > 0
    ensures r.Accepted? ==> r.item.key == item.key && r.item.count == item.count
    // an untrusted caller cannot choose who it is, where it came from or when
    ensures r.Accepted? && !IsTrustedUid(caller.uid) ==>
              r.item.pid == caller.pid && r.item.uid == caller.uid && r.item.timestamp == now
              && (r.item.pkgName, r.item.pkgVersionCode) == SanitizedPackage(caller.uid, lookup(caller.uid))
    // a trusted caller's values are kept, and only the unset ones are filled in
    ensures r.Accepted? && IsTrustedUid(caller.uid) ==>
              r.item.pid == (if item.pid == PidUnset then caller.pid else item.pid)
              && r.item.uid == (if item.uid == UidUnset then caller.uid else item.uid)
              && r.item.timestamp == (if item.timestamp == 0 then now else item.timestamp)
              && (item.pkgName != [] ==>
                    r.item.pkgName == item.pkgName && r.item.pkgVersionCode == item.pkgVersionCode)
              && (item.pkgName == [] ==>
                    (r.item.pkgName, r.item.pkgVersionCode) == SanitizedPackage(r.item.uid, lookup(r.item.uid)))
  {
    var isTrusted := IsTrustedUid(caller.uid);
    var named := WithPackage(WithIdentity(item, caller, isTrusted), isTrusted, lookup);
    if !ContentAllowed(named.key, isTrusted) then Refused(PermissionDenied)
    else if named.count == 0 then Refused(BadValue)
    else Accepted(WithTimestamp(named, isTrusted, now))
  }
}
