/**
 * Value types shared by the compatibility-manifest resolver and the file
 * provisioning engine: the manifest records as they are after JSON parsing,
 * file contents and paths.
 */
module Entity {

  /** A value that may be missing: an absent file or a document that failed to parse. */
  datatype Option<+T> = None | Some(value: T)

  /** One byte of file content. */
  newtype byte = x: int | 0 <= x < 256

  /** A filesystem path as the list of its name components; [] is the root. */
  type Path = seq<string>

  /** Origin code of an entry whose bytes come from the installer's bundled assets. */
  const BundledAsset: int := 0

  /** Origin code of an entry whose bytes come from a member of the game package archive. */
  const PackageZipEntry: int := 1

  /**
   * One file to stage: where its bytes come from (`origin` and `assetPath`)
   * and where they go (`targetPath`, relative to the base directory).
   */
  datatype ManifestEntry = ManifestEntry(origin: int, assetPath: string, targetPath: Path)

  /** A compatibility package: the lowest game build it applies to and its file list. */
  datatype ApkFilesManifest = ApkFilesManifest(minBuildCode: int, manifestEntries: seq<ManifestEntry>)
}
