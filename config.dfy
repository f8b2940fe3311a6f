/** The one setting the parser endpoint reads. */
module Config {

  /** `Settings.MAX_FILE_SIZE`: the largest accepted upload, in bytes. */
  const MaxFileSize: nat := 5 * 1024 * 1024

  /** The default cap is 5 MiB. */
  lemma MaxFileSizeIsFiveMiB()
    ensures MaxFileSize == 5242880
  {
  }
}
