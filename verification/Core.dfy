// Records that several components exchange (internal/core/repository.go).
module Core {
  /** One path of a working-tree snapshot. */
  datatype SyncPath = SyncPath(path: string, hash: string, deleted: bool)
}
