/**
 * ListFilesFunction.Run: the configuration and container guards, then the
 * loop that turns each enumerated blob into a VideoFileModel, all inside a
 * catch-all that turns any failure into a 500 response.
 */
module ListFiles {
  import opened Utilities
  import opened Configuration

  const ErrorPrefix := "An error occurred while processing your request: "

  /** A blob as the enumeration yields it: its name and Properties.ContentLength (None for null). */
  datatype BlobItem = BlobItem(name: string, contentLength: Option<int>)

  /**
   * What GetBlobsAsync enumerates for one container: the blobs it yields,
   * in order, and then either the end or the message of the exception that
   * stops the enumeration.
   */
  datatype Listing = Listing(items: seq<BlobItem>, failure: Option<string>)

  /**
   * The injected BlobServiceClient: the listing of each existing container.
   * While outage is Some(m), the existence check fails with the message m.
   */
  datatype BlobService = BlobService(containers: map<string, Listing>, outage: Option<string>)

  /** The record the listing reports for one blob: a missing length reads as 0. */
  predicate Describes(file: VideoFileModel, blob: BlobItem) {
    file.fileName == blob.name && file.fileSize == blob.contentLength.GetOr(0)
  }

  /**
   * The listing handler. Only the resolved container name is used; the
   * resolved connection string is not, the injected service is.
   */
  method Run(helper: ConfigurationHelper, service: BlobService) returns (response: Response)
    ensures GetConfiguration(helper).config.None? ==>
      response == ErrorResponse(InternalServerError, ConfigurationMissing)
    ensures (GetConfiguration(helper).config.Some? && service.outage.Some?) ==>
      response == ErrorResponse(InternalServerError, ErrorPrefix + service.outage.value)
    ensures (GetConfiguration(helper).config.Some? && service.outage.None? &&
             GetConfiguration(helper).config.value.containerName !in service.containers) ==>
      response == ErrorResponse(NotFound, ContainerMissing)
    ensures (GetConfiguration(helper).config.Some? && service.outage.None? &&
             GetConfiguration(helper).config.value.containerName in service.containers) ==>
      var listing := service.containers[GetConfiguration(helper).config.value.containerName];
      && (listing.failure.Some? ==>
            response == ErrorResponse(InternalServerError, ErrorPrefix + listing.failure.value))
      && (listing.failure.None? ==>
            && response.status == OK && response.body.FileList?
            && |response.body.files| == |listing.items|
            && forall i :: 0 <= i < |listing.items| ==> Describes(response.body.files[i], listing.items[i]))
  {
    var config := GetConfiguration(helper).config;
    if config.None? {
      return ErrorResponse(InternalServerError, ConfigurationMissing);
    }
    var containerName := config.value.containerName;

    if service.outage.Some? {
      return ErrorResponse(InternalServerError, ErrorPrefix + service.outage.value);
    }
    if containerName !in service.containers {
      return ErrorResponse(NotFound, ContainerMissing);
    }

    var listing := service.containers[containerName];
    var files: seq<VideoFileModel> := [];
    var i := 0;
    while i < |listing.items|
      invariant 0 <= i <= |listing.items|
      invariant |files| == i
      invariant forall j :: 0 <= j < i ==> Describes(files[j], listing.items[j])
    {
      var blob := listing.items[i];
      files := files + [VideoFileModel(blob.name, blob.contentLength.GetOr(0))];
      i := i + 1;
    }
    if listing.failure.Some? {
      return ErrorResponse(InternalServerError, ErrorPrefix + listing.failure.value);
    }
    return Response(OK, FileList(files));
  }
}
