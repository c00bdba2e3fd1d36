/**
  The ImageKit client as the commands use it: `upload` and `deleteFile`. The
  network is not modelled; each call takes the answer the service gives as an
  argument, and the client keeps a log of every call made to it.
 */
module Gateway {
  import opened ImageTypes

  class ImageKit {
    /** Every upload call, in order, with the response it got. */
    var uploads: seq<UploadCall>
    /** The `fileId` argument of every `deleteFile` call, in order. */
    var deletions: seq<Option<string>>

    constructor ()
      ensures uploads == [] && deletions == []
    {
      uploads, deletions := [], [];
    }

    /** `imagekit.upload(request)`, answered by `response`. */
    method Upload(request: UploadRequest, response: UploadResponse) returns (r: UploadResponse)
      modifies this
      ensures r == response
      ensures uploads == old(uploads) + [UploadCall(request, response)]
      ensures deletions == old(deletions)
    {
      uploads := uploads + [UploadCall(request, response)];
      r := response;
    }

    /**
      `imagekit.deleteFile(fileId)`; the service answers with the status code
      `statusCode` of its response metadata.
     */
    method DeleteFile(fileId: Option<string>, statusCode: int) returns (code: int)
      modifies this
      ensures code == statusCode
      ensures deletions == old(deletions) + [fileId]
      ensures uploads == old(uploads)
    {
      deletions := deletions + [fileId];
      code := statusCode;
    }
  }
}
