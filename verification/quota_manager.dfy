/** The per-session quota decisions of `QuotaManager`. The storage statistics
    come from one lookup taken as an input: no session directory, a record of
    counts, or a lookup that raised. */
module Quota {
  import opened Results
  import Config
  import ImageProcessor

  /** The counts `get_session_stats` reports for an existing session. */
  datatype Stats = Stats(totalSize: nat, imageCount: nat, projectCount: nat, outputCount: nat)

  /** The outcome of asking the session manager for statistics. */
  datatype Lookup = NoSession | Found(stats: Stats) | LookupFailed

  // ---------------------------------------------------------------------------
  // Session-wide checks
  // ---------------------------------------------------------------------------

  /** `check_storage_quota`: no session or a failed lookup allows. */
  function CheckStorageQuota(l: Lookup): (ok: bool)
    ensures !l.Found? ==> ok
    ensures l.Found? ==> (ok <==> l.stats.totalSize < Config.MaxTotalStorage)
  {
    match l
    case Found(s) => !(s.totalSize >= Config.MaxTotalStorage)
    case _ => true
  }

  /** `check_image_count_quota`: no session or a failed lookup allows. */
  function CheckImageCountQuota(l: Lookup): (ok: bool)
    ensures !l.Found? ==> ok
    ensures l.Found? ==> (ok <==> l.stats.imageCount < Config.MaxImages)
  {
    match l
    case Found(s) => !(s.imageCount >= Config.MaxImages)
    case _ => true
  }

  /** `check_project_count_quota`: unlike the two above, no session or a
      failed lookup denies. */
  function CheckProjectCountQuota(l: Lookup): (ok: bool)
    ensures ok <==> l.Found? && l.stats.projectCount < Config.MaxProjects
  {
    match l
    case Found(s) => !(s.projectCount >= Config.MaxProjects)
    case _ => false
  }

  // ---------------------------------------------------------------------------
  // Bound checks
  // ---------------------------------------------------------------------------

  function CheckFileSize(size: int): (ok: bool)
    ensures ok <==> size <= Config.MaxUploadSize
  {
    !(size > Config.MaxUploadSize)
  }

  function CheckDimensions(width: int, height: int): (ok: bool)
    ensures ok <==> width <= Config.MaxDimension && height <= Config.MaxDimension
  {
    !(width > Config.MaxDimension || height > Config.MaxDimension)
  }

  function CheckFrameCount(count: int): (ok: bool)
    ensures ok <==> count <= Config.MaxFrames
  {
    !(count > Config.MaxFrames)
  }

  function CheckOutputSize(size: int): (ok: bool)
    ensures ok <==> size <= Config.MaxOutputSize
  {
    !(size > Config.MaxOutputSize)
  }

  /** The quota manager and the image processor accept the same dimensions. */
  lemma DimensionChecksAgree(width: int, height: int)
    ensures CheckDimensions(width, height) == ImageProcessor.CheckDimensions(width, height)
  {
  }

  // ---------------------------------------------------------------------------
  // Remaining quota
  // ---------------------------------------------------------------------------

  /** One `{used, limit, remaining}` entry. */
  datatype Usage = Usage(used: int, limit: int, remaining: int)

  datatype Remaining = Remaining(storage: Usage, images: Usage, projects: Usage)

  /** `get_remaining_quota` without the float percentage. */
  function GetRemainingQuota(l: Lookup): (r: Option<Remaining>)
    ensures r.Some? <==> l.Found?
    ensures r.Some? ==>
              && r.value.storage.used == l.stats.totalSize
              && r.value.storage.limit == Config.MaxTotalStorage
              && r.value.images.used == l.stats.imageCount
              && r.value.images.limit == Config.MaxImages
              && r.value.projects.used == l.stats.projectCount
              && r.value.projects.limit == Config.MaxProjects
  {
    match l
    case Found(s) =>
      Some(Remaining(
        Usage(s.totalSize, Config.MaxTotalStorage, Config.MaxTotalStorage - s.totalSize),
        Usage(s.imageCount, Config.MaxImages, Config.MaxImages - s.imageCount),
        Usage(s.projectCount, Config.MaxProjects, Config.MaxProjects - s.projectCount)))
    case _ => None
  }

  predicate Balanced(u: Usage) {
    u.used + u.remaining == u.limit
  }

  /** Every reported entry splits its limit into used and remaining, and a
      positive remainder means the corresponding check still allows. */
  lemma RemainingBalances(l: Lookup)
    requires l.Found?
    ensures var r := GetRemainingQuota(l).value;
            && Balanced(r.storage) && Balanced(r.images) && Balanced(r.projects)
            && (r.storage.remaining > 0 <==> CheckStorageQuota(l))
            && (r.images.remaining > 0 <==> CheckImageCountQuota(l))
            && (r.projects.remaining > 0 <==> CheckProjectCountQuota(l))
  {
  }

  // ---------------------------------------------------------------------------
  // can_upload
  // ---------------------------------------------------------------------------

  const FileTooLarge := "File size exceeds maximum allowed"
  const TooManyImages := "Maximum number of images reached"
  const StorageExceeded := "Storage quota exceeded"
  const WouldExceedStorage := "Adding this file would exceed storage quota"

  /** `can_upload`: the first failing check gives the message. A failed lookup
      passes the two session checks and then raises from the final one, which
      the result reports as `Err`. */
  function CanUpload(l: Lookup, size: int): (r: Result<(bool, string)>)
    ensures r == Ok((true, "OK")) <==>
              && CheckFileSize(size) && l != LookupFailed
              && (l.Found? ==> l.stats.imageCount < Config.MaxImages
                               && l.stats.totalSize + size <= Config.MaxTotalStorage
                               && l.stats.totalSize < Config.MaxTotalStorage)
    ensures !CheckFileSize(size) ==> r == Ok((false, FileTooLarge))
    ensures CheckFileSize(size) && !CheckImageCountQuota(l) ==> r == Ok((false, TooManyImages))
    ensures CheckFileSize(size) && CheckImageCountQuota(l) && !CheckStorageQuota(l) ==>
              r == Ok((false, StorageExceeded))
    ensures CheckFileSize(size) && CheckImageCountQuota(l) && CheckStorageQuota(l)
            && l.Found? && l.stats.totalSize + size > Config.MaxTotalStorage ==>
              r == Ok((false, WouldExceedStorage))
    ensures r.Err? <==> CheckFileSize(size) && l.LookupFailed?
    ensures r.Ok? && r.value.0 ==> r.value.1 == "OK"
    ensures r.Ok? && !r.value.0 ==>
              r.value.1 in {FileTooLarge, TooManyImages, StorageExceeded, WouldExceedStorage}
  {
    if !CheckFileSize(size) then Ok((false, FileTooLarge))
    else if !CheckImageCountQuota(l) then Ok((false, TooManyImages))
    else if !CheckStorageQuota(l) then Ok((false, StorageExceeded))
    else
      match l
      case LookupFailed => Err("session statistics lookup raised")
      case Found(s) =>
        if s.totalSize + size > Config.MaxTotalStorage then Ok((false, WouldExceedStorage))
        else Ok((true, "OK"))
      case NoSession => Ok((true, "OK"))
  }

  /** An accepted upload keeps the session within its storage and the file
      within the per-upload limit. */
  lemma UploadStaysWithinQuota(l: Lookup, size: int)
    requires CanUpload(l, size) == Ok((true, "OK"))
    requires l.Found?
    ensures l.stats.totalSize + size <= Config.MaxTotalStorage
    ensures size <= Config.MaxUploadSize
    ensures l.stats.imageCount < Config.MaxImages
  {
  }
}
