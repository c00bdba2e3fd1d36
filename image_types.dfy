/**
  Values shared by the upload commands and the history view: the record that
  the local store keeps per content hash, the metadata sniffed from an image,
  the requests and responses of the upload gateway, and the state a command
  shows while and after it runs.
 */
module ImageTypes {

  datatype Option<+T> = None | Some(value: T) {
    /** The value, or `default` when absent (JavaScript's `x ?? default`). */
    function GetOr(default: T): T {
      match this
      case Some(v) => v
      case None => default
    }
  }

  type Bytes = seq<bv8>

  /** What `imageMeta` reports about a byte buffer; every field may be undefined. */
  datatype Meta = Meta(kind: Option<string>, width: Option<nat>, height: Option<nat>)

  /**
    One persisted upload. The record written by src/index.tsx has no `fileId`,
    `hash` or `from` (they are `None`); the one written by the finder command
    has all three.
   */
  datatype ImageRecord = ImageRecord(
    fileId: Option<string>,
    hash: Option<string>,
    source: string,
    from: Option<string>,
    format: string,
    url: string,
    thumbnailUrl: string,
    size: nat,
    height: Option<nat>,
    width: Option<nat>,
    createdAt: int)

  /** The arguments of `imagekit.upload`. */
  datatype UploadRequest = UploadRequest(file: Bytes, fileName: string, useUniqueFileName: bool)

  /** What `imagekit.upload` resolves to, or `UploadFailed` when it rejects. */
  datatype UploadResponse =
    | Uploaded(fileId: string, url: string, size: Option<nat>, height: Option<nat>,
               width: Option<nat>, thumbnailUrl: string)
    | UploadFailed

  /** One call made to the gateway's upload endpoint, with the answer it gave. */
  datatype UploadCall = UploadCall(request: UploadRequest, response: UploadResponse)

  /** The command state (`StateType`): `succeed` carries the record shown. */
  datatype Status =
    | Initial
    | NoSelectedImage
    | Canceled
    | Succeed(cache: bool, image: ImageRecord)
}
