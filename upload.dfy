/**
 * UploadVideoFunction.Run: the ordered guards of the upload handler
 * (configuration, container, Content-Type, boundary), then the loop over
 * the multipart sections in which the first section that is too large or
 * carries a file decides the outcome, with at most one blob written.
 */
module UploadVideo {
  import opened Utilities
  import opened Text
  import opened Configuration
  import opened Multipart
  import Int32

  const NotMultipart := "Invalid form content. Expecting 'multipart/form-data'."
  const BoundaryMissing := "Missing boundary in Content-Type header."
  const TooLarge := "File size exceeds the 200MB limit."
  const NotMp4 := "Invalid file. Only .mp4 files are allowed."
  const Uploaded := "File uploaded successfully."
  const NoFileData := "No valid file data in request."

  /**
   * The storage account the resolved connection string designates: each
   * container's blobs by name. While outage is Some(m), every request to
   * the service fails with the message m.
   */
  class BlobAccount {
    var containers: map<string, map<string, seq<bv8>>>
    var outage: Option<string>

    constructor (containers: map<string, map<string, seq<bv8>>>, outage: Option<string>)
      ensures this.containers == containers && this.outage == outage
    {
      this.containers := containers;
      this.outage := outage;
    }

    /** BlobClient.UploadAsync(content, overwrite: true): the blob is created or replaced. */
    method UploadBlob(container: string, name: string, content: seq<bv8>)
      requires container in containers
      modifies this
      ensures containers == old(containers)[container := old(containers)[container][name := content]]
      ensures outage == old(outage)
    {
      containers := containers[container := containers[container][name := content]];
    }
  }

  /**
   * The request headers as the handler reads them: the values of the
   * Content-Type header (None when the header is absent, where
   * Headers.GetValues throws), and the parameters MediaTypeHeaderValue.Parse
   * finds in the first value (None when Parse throws a FormatException).
   */
  datatype Request = Request(contentTypeValues: Option<seq<string>>, parameters: Option<seq<Parameter>>)

  /** FirstOrDefault over the header values: the first one, or null when there is none. */
  function FirstValue(values: seq<string>): Option<string> {
    if values == [] then None else Some(values[0])
  }

  /** An exception the handler does not catch; it leaves Run and reaches the host. */
  datatype Fault =
    | StorageFault(message: string)
    | HeaderMissingFault
    | HeaderFormatFault
    | SizeSettingFault(error: Int32.ParseError)
    | BodyReadFault(message: string)

  datatype Reply = Responded(response: Response) | Threw(fault: Fault)

  /** The Content-Type check: present, non-empty and containing "multipart/form-data" (ordinal). */
  predicate IsMultipartFormData(contentType: Option<string>) {
    !IsNullOrEmpty(contentType) && Contains(contentType.value, "multipart/form-data")
  }

  /** The headers carry Content-Type, pass the Content-Type check, parse, and carry a non-empty boundary. */
  predicate HeadersAccepted(request: Request) {
    request.contentTypeValues.Some? &&
    IsMultipartFormData(FirstValue(request.contentTypeValues.value)) &&
    request.parameters.Some? &&
    !IsNullOrEmpty(FindBoundary(request.parameters.value))
  }

  /** The configuration resolves and names a container of a reachable account. */
  predicate ContainerReady(helper: ConfigurationHelper, outage: Option<string>, containers: map<string, map<string, seq<bv8>>>) {
    var config := GetConfiguration(helper).config;
    config.Some? && outage.None? && config.value.containerName in containers
  }

  /** A section that ends the loop: it is over the limit, or it carries a file. */
  predicate Decisive(s: Section, maxBytes: int) {
    s.length > maxBytes || IsFileSection(s)
  }

  /** The index of the section that decides the outcome, if any section does. */
  function FirstDecisive(sections: seq<Section>, maxBytes: int): (r: Option<nat>)
    ensures r.Some? ==> r.value < |sections| && Decisive(sections[r.value], maxBytes)
    ensures r.Some? ==> forall j :: 0 <= j < r.value ==> !Decisive(sections[j], maxBytes)
    ensures r.None? ==> forall j :: 0 <= j < |sections| ==> !Decisive(sections[j], maxBytes)
  {
    FirstIndexWhere(sections, s => Decisive(s, maxBytes))
  }

  /** Sections after the deciding one cannot change which section decides. */
  lemma FirstDecisiveIgnoresLaterSections(sections: seq<Section>, later: seq<Section>, maxBytes: int)
    requires FirstDecisive(sections, maxBytes).Some?
    ensures FirstDecisive(sections + later, maxBytes) == FirstDecisive(sections, maxBytes)
  {
    FirstIndexWhereIgnoresSuffix(sections, later, s => Decisive(s, maxBytes));
  }

  /** No section before index k decides. */
  ghost predicate NoneDecisiveBefore(sections: seq<Section>, maxBytes: int, k: int) {
    forall j :: 0 <= j < k && j < |sections| ==> !Decisive(sections[j], maxBytes)
  }

  /**
   * With no deciding section before index k, section k is the first to
   * decide if it decides, and otherwise none up to k + 1 decides.
   */
  lemma FirstDecisiveHere(sections: seq<Section>, maxBytes: int, k: nat)
    requires k < |sections| && NoneDecisiveBefore(sections, maxBytes, k)
    ensures Decisive(sections[k], maxBytes) ==> FirstDecisive(sections, maxBytes) == Some(k)
    ensures !Decisive(sections[k], maxBytes) ==> NoneDecisiveBefore(sections, maxBytes, k + 1)
  {
    if Decisive(sections[k], maxBytes) {
      FirstIndexWhereUnique(sections, s => Decisive(s, maxBytes), k);
    }
  }

  /** When no section at all decides, there is no deciding section. */
  lemma NoFirstDecisive(sections: seq<Section>, maxBytes: int)
    requires NoneDecisiveBefore(sections, maxBytes, |sections|)
    ensures FirstDecisive(sections, maxBytes).None?
  {
  }

  /** The upload handler. `account` is the account of the resolved connection string. */
  method Run(helper: ConfigurationHelper, account: BlobAccount, request: Request, body: SectionStream)
    returns (reply: Reply)
    requires body.Valid() && body.position == 0
    modifies account, body
    ensures body.Valid() && account.outage == old(account.outage)
    // configuration absent: 500, nothing else consulted
    ensures GetConfiguration(helper).config.None? ==>
      reply == Responded(ErrorResponse(InternalServerError, ConfigurationMissing))
    // the existence check throws while the service is unreachable
    ensures (GetConfiguration(helper).config.Some? && account.outage.Some?) ==>
      reply == Threw(StorageFault(account.outage.value))
    // container absent: 404, before any header is looked at
    ensures (GetConfiguration(helper).config.Some? && account.outage.None? &&
             GetConfiguration(helper).config.value.containerName !in old(account.containers)) ==>
      reply == Responded(ErrorResponse(NotFound, ContainerMissing))
    // header checks, in order
    ensures (ContainerReady(helper, account.outage, old(account.containers)) &&
             request.contentTypeValues.None?) ==>
      reply == Threw(HeaderMissingFault)
    ensures (ContainerReady(helper, account.outage, old(account.containers)) &&
             request.contentTypeValues.Some? &&
             !IsMultipartFormData(FirstValue(request.contentTypeValues.value))) ==>
      reply == Responded(ErrorResponse(BadRequest, NotMultipart))
    ensures (ContainerReady(helper, account.outage, old(account.containers)) &&
             request.contentTypeValues.Some? &&
             IsMultipartFormData(FirstValue(request.contentTypeValues.value)) && request.parameters.None?) ==>
      reply == Threw(HeaderFormatFault)
    ensures (ContainerReady(helper, account.outage, old(account.containers)) &&
             request.contentTypeValues.Some? &&
             IsMultipartFormData(FirstValue(request.contentTypeValues.value)) && request.parameters.Some? &&
             IsNullOrEmpty(FindBoundary(request.parameters.value))) ==>
      reply == Responded(ErrorResponse(BadRequest, BoundaryMissing))
    // until every guard has passed, no section is read and nothing is written
    ensures !(ContainerReady(helper, account.outage, old(account.containers)) && HeadersAccepted(request)) ==>
      body.position == 0 && account.containers == old(account.containers)
    // the size limit setting is read once a section arrives; when it does not parse, Run throws
    ensures (ContainerReady(helper, account.outage, old(account.containers)) && HeadersAccepted(request) &&
             |body.sections| > 0 && GetMaxFileSize(helper).Err?) ==>
      && reply == Threw(SizeSettingFault(GetMaxFileSize(helper).error))
      && body.position == 1
      && account.containers == old(account.containers)
    // no deciding section: every section is read, nothing is written
    ensures (ContainerReady(helper, account.outage, old(account.containers)) && HeadersAccepted(request) &&
             (|body.sections| == 0 ||
              (GetMaxFileSize(helper).Ok? && FirstDecisive(body.sections, GetMaxFileSize(helper).value).None?))) ==>
      && body.position == |body.sections|
      && account.containers == old(account.containers)
      && reply == (if body.failure.Some? then Threw(BodyReadFault(body.failure.value))
                   else Responded(ErrorResponse(BadRequest, NoFileData)))
    // the first deciding section settles the outcome; no later section is read
    ensures (ContainerReady(helper, account.outage, old(account.containers)) && HeadersAccepted(request) &&
             GetMaxFileSize(helper).Ok? && FirstDecisive(body.sections, GetMaxFileSize(helper).value).Some?) ==>
      var k := FirstDecisive(body.sections, GetMaxFileSize(helper).value).value;
      var s := body.sections[k];
      var container := GetConfiguration(helper).config.value.containerName;
      && body.position == k + 1
      && (s.length > GetMaxFileSize(helper).value ==>
            reply == Responded(ErrorResponse(BadRequest, TooLarge)) &&
            account.containers == old(account.containers))
      && ((s.length <= GetMaxFileSize(helper).value && !EndsWithIgnoreCase(UploadName(s), ".mp4")) ==>
            reply == Responded(ErrorResponse(BadRequest, NotMp4)) &&
            account.containers == old(account.containers))
      && ((s.length <= GetMaxFileSize(helper).value && EndsWithIgnoreCase(UploadName(s), ".mp4")) ==>
            reply == Responded(Response(OK, PlainText(Uploaded))) &&
            account.containers ==
              old(account.containers)[container := old(account.containers)[container][UploadName(s) := s.content]])
  {
    var resolution := GetConfiguration(helper);
    if resolution.config.None? {
      return Responded(ErrorResponse(InternalServerError, ConfigurationMissing));
    }
    var containerName := resolution.config.value.containerName;

    if account.outage.Some? {
      return Threw(StorageFault(account.outage.value));
    }
    if containerName !in account.containers {
      return Responded(ErrorResponse(NotFound, ContainerMissing));
    }

    if request.contentTypeValues.None? {
      return Threw(HeaderMissingFault);
    }
    var contentType := FirstValue(request.contentTypeValues.value);
    if !IsMultipartFormData(contentType) {
      return Responded(ErrorResponse(BadRequest, NotMultipart));
    }
    if request.parameters.None? {
      return Threw(HeaderFormatFault);
    }
    var boundary := FindBoundary(request.parameters.value);
    if IsNullOrEmpty(boundary) {
      return Responded(ErrorResponse(BadRequest, BoundaryMissing));
    }

    reply := ReadSections(helper, account, containerName, body);
  }

  /**
   * The body of the loop for the section that decides: the size check, then
   * the file name check, then the write.
   */
  method Decide(account: BlobAccount, containerName: string, s: Section, maxBytes: int) returns (reply: Reply)
    requires containerName in account.containers && Decisive(s, maxBytes)
    modifies account
    ensures account.outage == old(account.outage)
    ensures s.length > maxBytes ==>
      reply == Responded(ErrorResponse(BadRequest, TooLarge)) && account.containers == old(account.containers)
    ensures (s.length <= maxBytes && !EndsWithIgnoreCase(UploadName(s), ".mp4")) ==>
      reply == Responded(ErrorResponse(BadRequest, NotMp4)) && account.containers == old(account.containers)
    ensures (s.length <= maxBytes && EndsWithIgnoreCase(UploadName(s), ".mp4")) ==>
      && reply == Responded(Response(OK, PlainText(Uploaded)))
      && account.containers ==
           old(account.containers)[containerName := old(account.containers)[containerName][UploadName(s) := s.content]]
  {
    if s.length > maxBytes {
      return Responded(ErrorResponse(BadRequest, TooLarge));
    }
    var fileName := TrimQuotes(s.disposition.value.fileName.value);
    if !EndsWithIgnoreCase(fileName, ".mp4") {
      return Responded(ErrorResponse(BadRequest, NotMp4));
    }
    account.UploadBlob(containerName, fileName, s.content);
    return Responded(Response(OK, PlainText(Uploaded)));
  }

  /**
   * The loop of the upload handler: sections are read one by one until one
   * is over the limit or carries a file, or the reader is exhausted.
   */
  method ReadSections(helper: ConfigurationHelper, account: BlobAccount, containerName: string, body: SectionStream)
    returns (reply: Reply)
    requires body.Valid() && body.position == 0 && containerName in account.containers
    modifies account, body
    ensures body.Valid() && account.outage == old(account.outage)
    // the size limit setting is read once a section arrives; when it does not parse, the loop throws
    ensures (|body.sections| > 0 && GetMaxFileSize(helper).Err?) ==>
      && reply == Threw(SizeSettingFault(GetMaxFileSize(helper).error))
      && body.position == 1
      && account.containers == old(account.containers)
    // no deciding section: every section is read, nothing is written
    ensures (|body.sections| == 0 ||
             (GetMaxFileSize(helper).Ok? && FirstDecisive(body.sections, GetMaxFileSize(helper).value).None?)) ==>
      && body.position == |body.sections|
      && account.containers == old(account.containers)
      && reply == (if body.failure.Some? then Threw(BodyReadFault(body.failure.value))
                   else Responded(ErrorResponse(BadRequest, NoFileData)))
    // the first deciding section settles the outcome; no later section is read
    ensures (GetMaxFileSize(helper).Ok? && FirstDecisive(body.sections, GetMaxFileSize(helper).value).Some?) ==>
      var k := FirstDecisive(body.sections, GetMaxFileSize(helper).value).value;
      var s := body.sections[k];
      && body.position == k + 1
      && (s.length > GetMaxFileSize(helper).value ==>
            reply == Responded(ErrorResponse(BadRequest, TooLarge)) &&
            account.containers == old(account.containers))
      && ((s.length <= GetMaxFileSize(helper).value && !EndsWithIgnoreCase(UploadName(s), ".mp4")) ==>
            reply == Responded(ErrorResponse(BadRequest, NotMp4)) &&
            account.containers == old(account.containers))
      && ((s.length <= GetMaxFileSize(helper).value && EndsWithIgnoreCase(UploadName(s), ".mp4")) ==>
            reply == Responded(Response(OK, PlainText(Uploaded))) &&
            account.containers ==
              old(account.containers)[containerName := old(account.containers)[containerName][UploadName(s) := s.content]])
  {
    var next := body.ReadNextSection();
    while next.NextSection?
      invariant body.Valid() && account.containers == old(account.containers)
      invariant account.outage == old(account.outage)
      invariant next.NextSection? ==>
        && 1 <= body.position && next.section == body.sections[body.position - 1]
        && (body.position > 1 ==> GetMaxFileSize(helper).Ok?)
        && (GetMaxFileSize(helper).Ok? ==> NoneDecisiveBefore(body.sections, GetMaxFileSize(helper).value, body.position - 1))
      invariant !next.NextSection? ==>
        && body.position == |body.sections|
        && next == (if body.failure.Some? then ReadFailed(body.failure.value) else EndOfBody)
        && (body.position > 0 ==> GetMaxFileSize(helper).Ok?)
        && (GetMaxFileSize(helper).Ok? ==> NoneDecisiveBefore(body.sections, GetMaxFileSize(helper).value, body.position))
      decreases |body.sections| - body.position + (if next.NextSection? then 1 else 0)
    {
      var section := next.section;
      var maxFileSize := GetMaxFileSize(helper);
      if maxFileSize.Err? {
        return Threw(SizeSettingFault(maxFileSize.error));
      }
      FirstDecisiveHere(body.sections, maxFileSize.value, body.position - 1);
      if Decisive(section, maxFileSize.value) {
        reply := Decide(account, containerName, section, maxFileSize.value);
        return;
      }
      next := body.ReadNextSection();
    }
    if body.position > 0 {
      NoFirstDecisive(body.sections, GetMaxFileSize(helper).value);
    }
    if next.ReadFailed? {
      return Threw(BodyReadFault(next.message));
    }
    return Responded(ErrorResponse(BadRequest, NoFileData));
  }
}
