/** The record a client submits (a mediametrics::Item reduced to what the service looks at). */
module MetricsItem {

  const NanosPerSecond: int := 1_000_000_000
  const MinInt64: int := -0x8000_0000_0000_0000
  const MaxInt64: int := 0x7FFF_FFFF_FFFF_FFFF

  /** uid_t: an unsigned 32-bit user id. */
  type Uid = u: int | 0 <= u < 0x1_0000_0000
  /** pid_t: a signed 32-bit process id. */
  type Pid = p: int | -0x8000_0000 <= p < 0x8000_0000

  /** `(uid_t)-1` and `(pid_t)-1`: the "not given" values of an item's uid and pid. */
  const UidUnset: Uid := 0xFFFF_FFFF
  const PidUnset: Pid := -1

  datatype Option<T> = None | Some(value: T)

  /** key, timestamp (ns), pid, uid, package name and version, and the number of properties. */
  datatype Item = Item(
    key: string,
    timestamp: int,
    pid: Pid,
    uid: Uid,
    pkgName: string,
    pkgVersionCode: int,
    count: nat)

  /** The status codes submitInternal returns. */
  datatype Status = NoError | PermissionDenied | BadValue

  /** A record held by the service. `handle` stands for the identity of the shared pointer
      that owns the item: every saved record gets a handle of its own. */
  datatype Entry = Entry(handle: nat, item: Item)
}
