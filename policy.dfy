/** The static helpers of MediaMetricsService: time rounding, package sanitising,
    trust, content validation and the statsd pull keys. */
module Policy {
  import opened CString
  import opened Decimal
  import opened MetricsItem

  /** C and C++ integer division truncates toward zero (Dafny's `/` is Euclidean). */
  function CDiv(a: int, b: int): (q: int)
    requires b > 0
    ensures a >= 0 ==> q * b <= a < q * b + b
    ensures a < 0 ==> q * b - b < a <= q * b
  {
    if a >= 0 then a / b else -((-a) / b)
  }

  /** roundTime: to the nearest whole second, halves rounding up, computed in int64 with
      C's truncating division. The requires rules out the signed overflow of the addition. */
  function RoundTime(timeNs: int): (r: int)
    requires MinInt64 <= timeNs <= MaxInt64 - NanosPerSecond / 2
    ensures r % NanosPerSecond == 0
    ensures MinInt64 <= r <= MaxInt64
    ensures timeNs >= -NanosPerSecond / 2 ==>
              r - NanosPerSecond / 2 <= timeNs < r + NanosPerSecond / 2
    ensures timeNs < -NanosPerSecond / 2 ==>
              timeNs + NanosPerSecond / 2 <= r < timeNs + NanosPerSecond / 2 + NanosPerSecond
  {
    CDiv(timeNs + NanosPerSecond / 2, NanosPerSecond) * NanosPerSecond
  }

  /** useUidForPackage: report the uid instead of the package name unless the package looks
      internal or the installer is a known store or a preload. The C routines stop at NUL. */
  function UseUidForPackage(package: string, installer: string): (r: bool)
    ensures r <==>
      '.' in CStr(package)
      && !StartsWith(CStr(package), "android.")
      && !StartsWith(CStr(installer), "com.android.")
      && !StartsWith(CStr(installer), "com.google.")
      && CStr(installer) != "preload"
  {
    var p, i := CStr(package), CStr(installer);
    if '.' !in p then false
    else if StartsWith(p, "android.") then false
    else if StartsWith(i, "com.android.") then false
    else if StartsWith(i, "com.google.") then false
    else if i == "preload" then false
    else true
  }

  /** The decision reads the names only up to a NUL: text smuggled in after one changes nothing. */
  lemma UidForPackageIgnoresTail(package: string, installer: string, tail1: string, tail2: string)
    requires '\0' !in package && '\0' !in installer
    ensures UseUidForPackage(package + ['\0'] + tail1, installer + ['\0'] + tail2)
            == UseUidForPackage(package, installer)
  {
    CStrAtNul(package, tail1);
    CStrAtNul(installer, tail2);
  }

  /** Packages named without a dot, and android.* packages, are always reported by name. */
  lemma InternalPackagesKeepName(uid: Uid, info: UidInfo)
    requires '.' !in info.package || StartsWith(info.package, "android.")
    ensures SanitizedPackage(uid, info) == (info.package, info.versionCode)
  {
  }

  /** What the package manager knows about a uid (mediautils::UidInfo::Info). */
  datatype UidInfo = UidInfo(package: string, installer: string, versionCode: int)

  /** getSanitizedPackageNameAndVersionCode, given the package manager's answer for `uid`. */
  function SanitizedPackage(uid: Uid, info: UidInfo): (r: (string, int))
    ensures UseUidForPackage(info.package, info.installer) ==>
              AllDigits(r.0) && DigitsValue(r.0) == uid && (|r.0| > 1 ==> r.0[0] != '0') && r.1 == 0
    ensures !UseUidForPackage(info.package, info.installer) ==>
              r == (info.package, info.versionCode)
  {
    if UseUidForPackage(info.package, info.installer) then
      DecimalRoundTrip(uid);
      (NatToDecimal(uid), 0)
    else
      (info.package, info.versionCode)
  }

  // Android's fixed uids (AID_* of private/android_filesystem_config.h).
  const AidSystem: Uid := 1000
  const AidBluetooth: Uid := 1002
  const AidCamera: Uid := 1006
  const AidMedia: Uid := 1013
  const AidDrm: Uid := 1019
  const AidMediaDrm: Uid := 1031
  const AidMediaEx: Uid := 1040
  const AidAudioserver: Uid := 1041
  const AidMediaCodec: Uid := 1046

  /** The calling uids whose items are trusted. */
  const TrustedUids: set<Uid> :=
    {AidAudioserver, AidBluetooth, AidCamera, AidDrm, AidMedia,
     AidMediaCodec, AidMediaEx, AidMediaDrm, AidSystem}

  predicate IsTrustedUid(uid: Uid)
    ensures IsTrustedUid(uid) <==> uid in {1000, 1002, 1006, 1013, 1019, 1031, 1040, 1041, 1046}
  {
    uid in TrustedUids
  }

  /** The keys an untrusted caller may submit under, besides the three prefixes. */
  const AllowedKeys: seq<string> := [
    "audiopolicy", "audiorecord", "audiothread", "audiotrack",
    "codec", "videofreeze", "videojudder", "extractor",
    "mediadrm", "mediaparser", "nuplayer"]

  /** The content rule: trusted items always pass; untrusted ones only under a known key. */
  predicate ContentAllowed(key: string, isTrusted: bool)
    ensures isTrusted ==> ContentAllowed(key, isTrusted)
    ensures !isTrusted && key == [] ==> !ContentAllowed(key, isTrusted)
  {
    isTrusted
    || StartsWith(key, "audio.")
    || StartsWith(key, "drm.vendor.")
    || StartsWith(key, "mediadrm.")
    || key in AllowedKeys
  }

  /** isContentValid, with its scan over the allowed keys. */
  method IsContentValid(item: Item, isTrusted: bool) returns (valid: bool)
    ensures valid <==> ContentAllowed(item.key, isTrusted)
  {
    if isTrusted { return true; }
    var key := item.key;
    if StartsWith(key, "audio.") { return true; }
    if StartsWith(key, "drm.vendor.") { return true; }
    if StartsWith(key, "mediadrm.") { return true; }
    for j := 0 to |AllowedKeys|
      invariant forall k :: 0 <= k < j ==> AllowedKeys[k] != key
    {
      if key == AllowedKeys[j] {
        return true;
      }
    }
    return false;
  }

  /** Keys whose records statsd pulls. */
  const PullableKeys: set<string> := {"mediadrm"}

  function IsPullable(key: string): (r: bool)
    ensures r <==> key == "mediadrm"
  {
    key in PullableKeys
  }

  /** stats::media_metrics::MEDIA_DRM_ACTIVITY_INFO, the one pulled atom. */
  const MediaDrmActivityInfo: int := 10201

  /** atomTagToKey: the record key a pulled atom is made from, or "" for an unknown atom. */
  function AtomTagToKey(atomTag: int): (key: string)
    ensures key != "" <==> atomTag == MediaDrmActivityInfo
    ensures key != "" ==> IsPullable(key)
  {
    if atomTag == MediaDrmActivityInfo then "mediadrm" else ""
  }
}
