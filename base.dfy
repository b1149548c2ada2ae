/** Values shared by every part of the model: optional values, results carrying
    the package manager's error kinds, and bytes. */
module Base {

  datatype Option<+T> = None | Some(value: T)

  /** Python truthiness of an optional string: `None` and `""` are both false. */
  predicate Truthy(o: Option<string>)
  {
    o.Some? && o.value != ""
  }

  /** The error kinds the install pipeline raises, with the context its messages carry. */
  datatype Error =
    | UnsupportedOs(rawOs: string, supportedOs: seq<string>)
    | UnsupportedArch(rawArch: string, supportedArch: seq<string>)
    | NoArchive(targetOs: string, targetArch: string, supported: seq<(string, string)>)
    | NoUrl
    | UnsupportedFormat(archiveName: string, supportedSuffixes: seq<string>)
    | PathTraversal(entryName: string)
    | ExtractDirEscapes(extractDir: string)
    | ExtractDirNotFound(extractDir: string)
    | ExtractDirIsDestination(extractDir: string)
    | ExtractDirCollision(extractDir: string)
    | InvalidConda(archiveName: string)
    | CorruptArchive(archiveName: string)
    | MissingPathKey
    | PrefixTooLong(target: string, newLength: nat, placeholderLength: nat)
    | DownloadFailed(url: string)
    | HashMismatch(fileName: string, expected: string, actual: string)
    | UnknownBucket(bucket: string)
    | ManifestNotFound(appName: string)
    | VersionNotFound(version: string, appName: string)
    | VersionYanked(version: string, appName: string, reason: string)
    | NotInstalled(target: string)
    | NotADirectory(target: string)
    | AppsDirMissing
    | InvalidAppSpec(spec: string)
    | BucketNotFound(bucket: string)
    | NoLocalBuckets

  datatype Result<+T> = Ok(value: T) | Err(error: Error)
  {
    predicate IsFailure()
    {
      Err?
    }

    function PropagateFailure<U>(): Result<U>
      requires Err?
    {
      Err(error)
    }

    function Extract(): T
      requires Ok?
    {
      value
    }
  }

  newtype byte = b: int | 0 <= b < 256

  type Bytes = seq<byte>
}
