/** What R2ServiceClient asks of the object store and of the local filesystem.
    Neither is modelled as behaviour: the store's and the filesystem's answers are
    inputs of the operations, and the calls made are recorded, in order, as a
    sequence of StorageCall values. */
module Storage {
  import opened Wrappers
  import opened Base64

  /** What java.io.File reports about an existing local path. */
  datatype FileKind = RegularFile | NotRegularFile

  /** The local filesystem as seen by the upload: every existing path and its kind. */
  type FileSystem = map<string, FileKind>

  /** The payload handed to putObject (RequestBody.fromString, fromBytes, fromFile). */
  datatype RequestBody =
    | FromString(text: string)
    | FromBytes(bytes: seq<byte>)
    | FromFile(path: string)

  /** PutObjectRequest as built by uploadObject: bucket, key and content type. */
  datatype PutObjectRequest = PutObjectRequest(bucket: string, key: string, contentType: string, body: RequestBody)

  /** The part of HeadObjectResponse the download decides on; the content length
      is only logged. */
  datatype ObjectMetadata = ObjectMetadata(contentType: Option<string>)

  /** One call to the object store or the filesystem, in the order it is made. */
  datatype StorageCall =
    | PutObject(request: PutObjectRequest)
    | HeadObject(bucket: string, key: string)
    | GetObject(bucket: string, key: string)
    | CreateTempFile(prefix: string, suffix: string)
    | GetObjectToFile(bucket: string, key: string, path: string)
}
