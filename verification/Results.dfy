/** The installer's result codes. */
module Results {
  datatype InstallResult =
    | InstallOk
    | InvalidArg
    | DecompressFailed
    | DecompressedTooLarge
    | MalformedTar
    | UnsafePath
    | UnsupportedEntry
    | ManifestMissing
    | ManifestParse
    | ManifestMismatch
    | IoError
}
