/** The version gate's constants (the static class `PoetryStorageConstant`) and the database name. */
module PoetryStorageConstant {
  /** `nameof(PoetryStorageConstant) + "." + nameof(Version)`. */
  const VersionKey: string := "PoetryStorageConstant" + "." + "Version"

  /** The content version of the bundled database. */
  const Version: int := 1

  /**
   * The file name of the database and the logical name of the embedded resource. In the
   * source this is `PoetryStorage.DbName`, not a member of `PoetryStorageConstant`.
   */
  const DbName: string := "poetrydb.sqlite3"
}
