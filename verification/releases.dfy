/**
 The domain objects the driver stores, reduced to what the storage logic
 observes: a release with its name, version and lifecycle status, and the
 stored body that either decodes to a release or is corrupt.
 */
module Releases {

  /** Lifecycle codes of a release. */
  datatype Status =
    | Unknown
    | Deployed
    | Deleted
    | Superseded
    | Failed
    | Deleting
    | PendingInstall
    | PendingUpgrade
    | PendingRollback

  datatype Release = Release(name: string, version: int, status: Status)

  /**
   A stored body. `Valid(r)` is the encoding of `r`, which decodes back to
   exactly `r`; `Corrupt` is a body that fails to decode.
   */
  datatype Body = Valid(release: Release) | Corrupt
}

/** The closed error vocabulary of the driver. */
module StorageErrors {

  datatype StorageError =
    | InvalidKey(key: string)
    | ReleaseNotFound(key: string)
    | ReleaseExists(key: string)
    | DecodeError
    | EncodeError
}
