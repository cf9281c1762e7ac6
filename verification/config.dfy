/** Configuration values the core reads: the per-session quotas, the session
    lifetime and the accepted upload extensions (config.py). */
module Config {

  /** Largest single upload, in bytes (10 MiB). */
  const MaxUploadSize: nat := 10 * 1024 * 1024

  /** Largest total storage of one session, in bytes (50 MiB). */
  const MaxTotalStorage: nat := 50 * 1024 * 1024

  /** Most uploaded images one session may hold. */
  const MaxImages: nat := 50

  /** Most frames one animation may have. */
  const MaxFrames: nat := 200

  /** Largest GIF the builder keeps, in bytes (20 MiB). */
  const MaxOutputSize: nat := 20 * 1024 * 1024

  /** Largest width or height of a source image or of the canvas. */
  const MaxDimension: nat := 2000

  /** Most saved projects one session may hold. */
  const MaxProjects: nat := 10

  /** Session lifetime in hours (one week). */
  const SessionLifetimeHours: nat := 168

  /** Extensions an upload's file name may carry, lower case and without the dot. */
  const AllowedExtensions: set<string> := {"png", "jpg", "jpeg", "gif", "webp"}
}
