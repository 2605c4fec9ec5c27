/**
  The decision logic of `ImageController.uploadImage`: reject an empty file,
  then a file whose declared content type is missing or not an image type,
  then hand the file to the image service and shape its outcome into an
  HTTP status and an `ImageResponse` body. The timestamp is left out, and
  the service is represented by its outcome, which is consulted only when
  both checks pass.
 */
module Controller {

  import opened JavaLang

  /** The parts of the multipart file the controller looks at. */
  datatype UploadedFile = UploadedFile(isEmpty: bool, contentType: Nullable<string>, originalFilename: Nullable<string>)

  /** What the image service does with the file: returns an image URL, or
      throws an IOException whose message may be null. */
  datatype ServiceOutcome = Processed(imageUrl: string) | IoFailure(message: Nullable<string>)

  /** The response body; fields the builder never sets stay null. */
  datatype ImageResponse = ImageResponse(success: bool, message: string,
                                         imageUrl: Nullable<string>, originalName: Nullable<string>)

  /** The HTTP status, the body, and whether the image service was called. */
  datatype Reply = Reply(status: int, body: ImageResponse, serviceCalled: bool)

  const EmptyFileMessage := "Please select a file to upload"
  const NotAnImageMessage := "File must be an image"
  const SuccessMessage := "Image processed successfully"
  const ErrorPrefix := "Error processing image: "

  /** Java string concatenation renders a null reference as "null". */
  function Render(s: Nullable<string>): (r: string)
    ensures s.Present? ==> r == s.value
    ensures r == "null" <==> s == Null || s == Present("null")
  {
    match s
    case Null => "null"
    case Present(v) => v
  }

  /** The declared content type is present and begins with "image/",
      compared character by character, so case matters. */
  function IsImageType(contentType: Nullable<string>): (ok: bool)
    ensures ok <==> contentType.Present? && |contentType.value| >= 6
                    && forall i :: 0 <= i < 6 ==> contentType.value[i] == "image/"[i]
  {
    contentType.Present? && StartsWith(contentType.value, "image/")
  }

  function BadRequest(message: string): ImageResponse {
    ImageResponse(false, message, Null, Null)
  }

  function UploadImage(file: UploadedFile, outcome: ServiceOutcome): (reply: Reply)
    ensures reply.status in {200, 400, 500}
    ensures reply.body.success <==> reply.status == 200
    ensures reply.serviceCalled <==> !file.isEmpty && IsImageType(file.contentType)
    ensures reply.status == 400 <==> !reply.serviceCalled
    ensures file.isEmpty ==> reply.body.message == EmptyFileMessage
    ensures !file.isEmpty && !IsImageType(file.contentType) ==> reply.body.message == NotAnImageMessage
    ensures reply.serviceCalled && outcome.Processed? ==>
              reply.status == 200
              && reply.body.message == SuccessMessage
              && reply.body.imageUrl == Present(outcome.imageUrl)
              && reply.body.originalName == file.originalFilename
    ensures reply.serviceCalled && outcome.IoFailure? ==>
              reply.status == 500
              && reply.body.message == ErrorPrefix + Render(outcome.message)
    ensures !reply.body.success ==> reply.body.imageUrl == Null && reply.body.originalName == Null
  {
    if file.isEmpty then
      Reply(400, BadRequest(EmptyFileMessage), false)
    else if !IsImageType(file.contentType) then
      Reply(400, BadRequest(NotAnImageMessage), false)
    else
      match outcome
      case Processed(url) =>
        Reply(200, ImageResponse(true, SuccessMessage, Present(url), file.originalFilename), true)
      case IoFailure(msg) =>
        Reply(500, ImageResponse(false, ErrorPrefix + Render(msg), Null, Null), true)
  }

  /** The empty-file check runs first: an empty upload gets the same reply
      whatever its content type, its name and whatever the service would have
      done. */
  lemma EmptyFileCheckComesFirst(f1: UploadedFile, f2: UploadedFile, o1: ServiceOutcome, o2: ServiceOutcome)
    requires f1.isEmpty && f2.isEmpty
    ensures UploadImage(f1, o1) == UploadImage(f2, o2)
  {
  }

  /** A non-empty upload without a content type, or with one outside
      "image/...", is rejected with 400 without consulting the service. */
  lemma NonImageRejected(file: UploadedFile, o1: ServiceOutcome, o2: ServiceOutcome)
    requires !file.isEmpty && !IsImageType(file.contentType)
    ensures UploadImage(file, o1) == UploadImage(file, o2)
    ensures UploadImage(file, o1).status == 400
    ensures UploadImage(file, o1).body == BadRequest(NotAnImageMessage)
  {
  }

  /** The prefix test ignores no case: a type with a capital letter anywhere
      in its first six characters ("IMAGE/PNG", "Image/png") is rejected. */
  lemma CapitalisedTypeRejected(contentType: string, k: nat)
    requires k < 6 && k < |contentType| && 'A' <= contentType[k] <= 'Z'
    ensures !IsImageType(Present(contentType))
  {
    assert contentType[k] != "image/"[k];
  }

  /** An IOException whose message is null is reported as
      "Error processing image: null". */
  lemma NullMessageRendered(file: UploadedFile)
    requires !file.isEmpty && IsImageType(file.contentType)
    ensures UploadImage(file, IoFailure(Null)).body.message == "Error processing image: null"
  {
  }
}
