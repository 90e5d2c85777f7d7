/**
 * The Imgur client: how each of the three calls (upload, fetch metadata,
 * delete) builds its request and turns the provider's answer into a result
 * map or an exception. The HTTP exchange itself is a parameter, `server`,
 * that maps the request sent to what came back.
 */
module Imgur {
  import opened Wrappers

  type Byte = x: int | 0 <= x < 256

  /** Endpoint configuration; every value can be overridden from the application's properties. */
  datatype Properties = Properties(uploadEndpoint: string, deleteEndpoint: string, imageEndpoint: string)

  /** The placeholder the delete and image endpoint templates carry. */
  const Placeholder: string := "{imageHash}"

  /** The part of the default image and delete templates before the placeholder. */
  const ImagePrefix: string := "https://api.imgur.com/3/image/"

  /**
   * The endpoint templates used when the configuration does not override them:
   * "https://api.imgur.com/3/image" for uploads and
   * "https://api.imgur.com/3/image/{imageHash}" for both delete and fetch.
   */
  const DefaultProperties: Properties := Properties(
    "https://api.imgur.com/3/image",
    ImagePrefix + Placeholder,
    ImagePrefix + Placeholder)

  // ---------------------------------------------------------------------------
  // Placeholder substitution (Java's String.replace on a literal target)
  // ---------------------------------------------------------------------------

  /** True when the placeholder starts at position i of s. */
  predicate MatchAt(s: string, i: nat)
  {
    i + |Placeholder| <= |s| && s[i..i + |Placeholder|] == Placeholder
  }

  /**
   * Every occurrence of the placeholder, scanning left to right without
   * overlap, replaced by `value`.
   */
  function Substitute(template: string, value: string): string
    decreases |template|
  {
    if |template| < |Placeholder| then template
    else if template[..|Placeholder|] == Placeholder then value + Substitute(template[|Placeholder|..], value)
    else [template[0]] + Substitute(template[1..], value)
  }

  /** A template without any occurrence of the placeholder is left as it is. */
  lemma {:induction false} SubstituteNoPlaceholder(template: string, value: string)
    requires forall i: nat :: i < |template| ==> !MatchAt(template, i)
    ensures Substitute(template, value) == template
  {
    if |template| >= |Placeholder| {
      assert !MatchAt(template, 0);
      forall i: nat | i < |template[1..]| ensures !MatchAt(template[1..], i) {
        MatchShift(template, i);
      }
      SubstituteNoPlaceholder(template[1..], value);
    }
  }

  /** Dropping the first character shifts every match position down by one. */
  lemma MatchShift(s: string, i: nat)
    requires s != []
    ensures MatchAt(s[1..], i) == MatchAt(s, i + 1)
  {
    if i + |Placeholder| <= |s| - 1 {
      assert s[1..][i..i + |Placeholder|] == s[i + 1..i + 1 + |Placeholder|];
    }
  }

  /**
   * Where the first occurrence of the placeholder starts at i, the text before
   * it is kept, the occurrence becomes the value, and substitution resumes
   * right after it. With SubstituteNoPlaceholder this pins down every result.
   */
  lemma {:induction false} SubstituteFirstMatch(template: string, value: string, i: nat)
    requires MatchAt(template, i)
    requires forall j: nat :: j < i ==> !MatchAt(template, j)
    ensures Substitute(template, value) == template[..i] + value + Substitute(template[i + |Placeholder|..], value)
    decreases i
  {
    if i == 0 {
      assert template[..|Placeholder|] == Placeholder && template[..0] == [];
    } else {
      var rest := template[1..];
      NoEarlierMatchShift(template, i);
      MatchShift(template, i - 1);
      SubstituteFirstMatch(rest, value, i - 1);
      SubstituteSkip(template, value);
      SplitAfterFirst(template, i);
    }
  }

  /** No placeholder before position i means none before i - 1 once the first character is dropped. */
  lemma NoEarlierMatchShift(template: string, i: nat)
    requires 0 < i <= |template|
    requires forall j: nat :: j < i ==> !MatchAt(template, j)
    ensures forall j: nat :: j < i - 1 ==> !MatchAt(template[1..], j)
  {
    forall j: nat | j < i - 1 ensures !MatchAt(template[1..], j) {
      MatchShift(template, j);
    }
  }

  /** Slicing after dropping the first character, written against the whole template. */
  lemma SplitAfterFirst(template: string, i: nat)
    requires 0 < i && i + |Placeholder| <= |template|
    ensures [template[0]] + template[1..][..i - 1] == template[..i]
    ensures template[1..][i - 1 + |Placeholder|..] == template[i + |Placeholder|..]
  {
  }

  /** Where no placeholder starts at the front, the first character is copied and substitution goes on. */
  lemma SubstituteSkip(template: string, value: string)
    requires template != [] && !MatchAt(template, 0)
    ensures Substitute(template, value) == [template[0]] + Substitute(template[1..], value)
  {
  }

  /**
   * A run of characters free of '{' is copied through, and the placeholder
   * right after it is replaced; substitution then resumes on the rest.
   */
  lemma {:induction false} SubstituteAfterPlainPrefix(prefix: string, rest: string, value: string)
    requires '{' !in prefix
    ensures Substitute(prefix + Placeholder + rest, value) == prefix + value + Substitute(rest, value)
  {
    var t := prefix + Placeholder + rest;
    if prefix == [] {
      assert t == Placeholder + rest;
      assert t[..|Placeholder|] == Placeholder;
      assert t[|Placeholder|..] == rest;
    } else {
      assert t[0] == prefix[0];
      assert t[..|Placeholder|] != Placeholder by { assert t[..|Placeholder|][0] != Placeholder[0]; }
      assert t[1..] == prefix[1..] + Placeholder + rest;
      SubstituteAfterPlainPrefix(prefix[1..], rest, value);
    }
  }

  /** With the default template the image URL is the fixed prefix followed by the hash, and distinct hashes give distinct URLs. */
  lemma DefaultImageUrl(hash: string, other: string)
    ensures Substitute(DefaultProperties.imageEndpoint, hash) == ImagePrefix + hash
    ensures Substitute(DefaultProperties.deleteEndpoint, hash) == ImagePrefix + hash
    ensures hash != other ==> Substitute(DefaultProperties.imageEndpoint, hash) != Substitute(DefaultProperties.imageEndpoint, other)
  {
    DefaultTemplateShape();
    ImagePrefixHasNoBrace();
    SubstituteAfterPlainPrefix(ImagePrefix, "", hash);
    SubstituteAfterPlainPrefix(ImagePrefix, "", other);
    assert (ImagePrefix + hash)[|ImagePrefix|..] == hash;
    assert (ImagePrefix + other)[|ImagePrefix|..] == other;
  }

  /** Both default templates are the fixed prefix followed by the placeholder and nothing else. */
  lemma DefaultTemplateShape()
    ensures DefaultProperties.imageEndpoint == ImagePrefix + Placeholder + ""
    ensures DefaultProperties.deleteEndpoint == ImagePrefix + Placeholder + ""
  {
    assert ImagePrefix + Placeholder + "" == ImagePrefix + Placeholder;
  }

  /** The fixed prefix holds no opening brace, so no placeholder starts inside it. */
  lemma ImagePrefixHasNoBrace()
    ensures '{' !in ImagePrefix
  {
  }

  // ---------------------------------------------------------------------------
  // The exchange with the provider
  // ---------------------------------------------------------------------------

  datatype HttpMethod = GET | POST | DELETE

  /** The multipart part "image": the file's bytes under its original file name. */
  datatype FilePart = FilePart(filename: string, bytes: seq<Byte>)

  /** A request to the provider: method, URL and, for an upload, the image part. */
  datatype Request = Request(httpMethod: HttpMethod, url: string, image: Option<FilePart>)

  /**
   * The provider's JSON envelope, as the client reads it: the "success" field
   * as a boolean (None when the field is absent) and the "data" object with
   * each field's text (None when "data" is absent).
   */
  datatype Envelope = Envelope(success: Option<bool>, data: Option<map<string, string>>)

  /**
   * What the HTTP client gives back: a transport-level failure (connection,
   * timeout, non-2xx status, unreadable body: any RestClientException) or a
   * response whose body may be absent.
   */
  datatype Exchange = TransportFailure | Response(body: Option<Envelope>)

  /** An uploaded file; `content` is None when reading its bytes fails with an IOException. */
  datatype UploadFile = UploadFile(originalFilename: string, content: Option<seq<Byte>>)

  /** Whether an exception wraps an underlying cause. */
  datatype Cause = NoCause | IOFailure | RestClientFailure

  /** The exceptions the client methods let escape. */
  datatype ClientError =
    | ImgurApiException(message: string, cause: Cause)
    | ImageProcessingException(message: string, cause: Cause)
    | NullPointerException

  const UploadFailed: string := "Failed to upload image to Imgur"
  const CommunicationFailed: string := "Failed to communicate with Imgur API"
  const ProcessingFailed: string := "Failed to process image file"
  const RetrieveFailed: string := "Failed to retrieve image from Imgur"
  const DeleteFailed: string := "Failed to delete image from Imgur"

  /** The "data" fields an upload reads and the result keys it stores them under. */
  const UploadKeys: set<string> := {"imageUrl", "deleteHash", "imageHash"}
  const MetadataKeys: set<string> := {"imageUrl", "type", "width", "height", "size"}

  /** The body is present and its "success" field reads as true. */
  predicate Succeeded(ex: Exchange)
  {
    ex.Response? && ex.body.Some? && ex.body.value.success == Some(true)
  }

  /** The body is absent, or its "success" field is present and false: the client's explicit failure branch. */
  predicate Refused(ex: Exchange)
  {
    ex.Response? && (ex.body.None? || ex.body.value.success == Some(false))
  }

  /** The body is present but has no "success" field: dereferencing it throws. */
  predicate NoSuccessField(ex: Exchange)
  {
    ex.Response? && ex.body.Some? && ex.body.value.success.None?
  }

  /** The "data" object exists and holds every one of the given fields. */
  predicate HasData(ex: Exchange, fields: set<string>)
    requires Succeeded(ex)
  {
    ex.body.value.data.Some? && fields <= ex.body.value.data.value.Keys
  }

  /** Every exchange falls in exactly one of the four cases the client distinguishes. */
  lemma ExchangeCasesExhaustive(ex: Exchange)
    ensures ex.TransportFailure? || Succeeded(ex) || Refused(ex) || NoSuccessField(ex)
    ensures !(Succeeded(ex) && Refused(ex)) && !(Succeeded(ex) && NoSuccessField(ex)) && !(Refused(ex) && NoSuccessField(ex))
  {
    if ex.Response? && ex.body.Some? && ex.body.value.success.Some? {
      if ex.body.value.success.value {
        assert Succeeded(ex);
      } else {
        assert Refused(ex);
      }
    }
  }

  // --- upload ----------------------------------------------------------------

  function UploadRequest(props: Properties, filename: string, bytes: seq<Byte>): Request
  {
    Request(POST, props.uploadEndpoint, Some(FilePart(filename, bytes)))
  }

  /**
   * Uploads a file. Reading the file fails first if it fails at all; then the
   * provider's answer decides: a successful envelope gives the link, delete
   * hash and id under "imageUrl", "deleteHash" and "imageHash".
   */
  function UploadImage(props: Properties, file: UploadFile, server: Request -> Exchange): (r: Result<map<string, string>, ClientError>)
    ensures file.content.None? ==> r == Err(ImageProcessingException(ProcessingFailed, IOFailure))
    ensures file.content.Some? ==>
      var ex := server(UploadRequest(props, file.originalFilename, file.content.value));
      && (ex.TransportFailure? ==> r == Err(ImgurApiException(CommunicationFailed, RestClientFailure)))
      && (Refused(ex) ==> r == Err(ImgurApiException(UploadFailed, NoCause)))
      && (NoSuccessField(ex) ==> r == Err(NullPointerException))
      && (Succeeded(ex) && !HasData(ex, {"link", "deletehash", "id"}) ==> r == Err(NullPointerException))
      && (r.Ok? <==> Succeeded(ex) && HasData(ex, {"link", "deletehash", "id"}))
      && (r.Ok? ==> r.value.Keys == UploadKeys
                    && r.value["imageUrl"] == ex.body.value.data.value["link"]
                    && r.value["deleteHash"] == ex.body.value.data.value["deletehash"]
                    && r.value["imageHash"] == ex.body.value.data.value["id"])
  {
    match file.content
    case None => Err(ImageProcessingException(ProcessingFailed, IOFailure))
    case Some(bytes) =>
      match server(UploadRequest(props, file.originalFilename, bytes))
      case TransportFailure => Err(ImgurApiException(CommunicationFailed, RestClientFailure))
      case Response(body) =>
        if body.None? then Err(ImgurApiException(UploadFailed, NoCause))
        else match body.value.success
          case None => Err(NullPointerException)
          case Some(false) => Err(ImgurApiException(UploadFailed, NoCause))
          case Some(true) =>
            match body.value.data
            case None => Err(NullPointerException)
            case Some(data) =>
              if "link" in data && "deletehash" in data && "id" in data then
                Ok(map["imageUrl" := data["link"], "deleteHash" := data["deletehash"], "imageHash" := data["id"]])
              else Err(NullPointerException)
  }

  /** Imgur's answer to a successful upload, with the identifiers the provider assigned. */
  function UploadAnswer(id: string, deleteHash: string, link: string, extra: map<string, string>): Exchange
  {
    Response(Some(Envelope(Some(true), Some(extra + map["id" := id, "deletehash" := deleteHash, "link" := link]))))
  }

  /**
   * Round trip: whatever identifiers the provider issues for the uploaded
   * bytes come back, unchanged, under the result's keys (other fields of the
   * "data" object play no part).
   */
  lemma UploadRoundTrip(props: Properties, name: string, bytes: seq<Byte>, id: string, deleteHash: string, link: string,
                        extra: map<string, string>, server: Request -> Exchange)
    requires server(UploadRequest(props, name, bytes)) == UploadAnswer(id, deleteHash, link, extra)
    ensures UploadImage(props, UploadFile(name, Some(bytes)), server)
         == Ok(map["imageUrl" := link, "deleteHash" := deleteHash, "imageHash" := id])
  {
  }

  /** A file that cannot be read is never sent: the result does not depend on the provider at all. */
  lemma UnreadableFileNeverSent(props: Properties, name: string, s1: Request -> Exchange, s2: Request -> Exchange)
    ensures UploadImage(props, UploadFile(name, None), s1) == UploadImage(props, UploadFile(name, None), s2)
    ensures UploadImage(props, UploadFile(name, None), s1).Err?
  {
  }

  // --- fetch metadata --------------------------------------------------------

  function ImageRequest(props: Properties, imageHash: string): Request
  {
    Request(GET, Substitute(props.imageEndpoint, imageHash), None)
  }

  /**
   * Fetches an image's metadata from the image endpoint with the hash
   * substituted. An absent body, a false flag and a transport failure all
   * give the same message; only the last carries a cause.
   */
  function GetImage(props: Properties, imageHash: string, server: Request -> Exchange): (r: Result<map<string, string>, ClientError>)
    ensures
      var ex := server(ImageRequest(props, imageHash));
      && (ex.TransportFailure? ==> r == Err(ImgurApiException(RetrieveFailed, RestClientFailure)))
      && (Refused(ex) ==> r == Err(ImgurApiException(RetrieveFailed, NoCause)))
      && (NoSuccessField(ex) ==> r == Err(NullPointerException))
      && (r.Ok? <==> Succeeded(ex) && HasData(ex, {"link", "type", "width", "height", "size"}))
      && (r.Err? && r.error.ImgurApiException? ==> r.error.message == RetrieveFailed)
      && (r.Ok? ==> r.value.Keys == MetadataKeys
                    && r.value["imageUrl"] == ex.body.value.data.value["link"]
                    && r.value["type"] == ex.body.value.data.value["type"]
                    && r.value["width"] == ex.body.value.data.value["width"]
                    && r.value["height"] == ex.body.value.data.value["height"]
                    && r.value["size"] == ex.body.value.data.value["size"])
  {
    match server(ImageRequest(props, imageHash))
    case TransportFailure => Err(ImgurApiException(RetrieveFailed, RestClientFailure))
    case Response(body) =>
      if body.None? then Err(ImgurApiException(RetrieveFailed, NoCause))
      else match body.value.success
        case None => Err(NullPointerException)
        case Some(false) => Err(ImgurApiException(RetrieveFailed, NoCause))
        case Some(true) =>
          match body.value.data
          case None => Err(NullPointerException)
          case Some(d) =>
            if "link" in d && "type" in d && "width" in d && "height" in d && "size" in d then
              Ok(map["imageUrl" := d["link"], "type" := d["type"], "width" := d["width"],
                     "height" := d["height"], "size" := d["size"]])
            else Err(NullPointerException)
  }

  /** With the default configuration the metadata request goes to the image URL of exactly that hash. */
  lemma GetImageDefaultUrl(imageHash: string)
    ensures ImageRequest(DefaultProperties, imageHash) == Request(GET, ImagePrefix + imageHash, None)
  {
    DefaultImageUrl(imageHash, imageHash);
  }

  // --- delete ----------------------------------------------------------------

  /** The delete request: the delete hash, not the image hash, goes into the template. */
  function DeleteRequest(props: Properties, deleteHash: string): Request
  {
    Request(DELETE, Substitute(props.deleteEndpoint, deleteHash), None)
  }

  /**
   * Deletes an image; returns normally exactly when the body is present and
   * its flag is true, whatever "data" holds.
   */
  function DeleteImage(props: Properties, deleteHash: string, server: Request -> Exchange): (r: Result<(), ClientError>)
    ensures
      var ex := server(DeleteRequest(props, deleteHash));
      && (r.Ok? <==> Succeeded(ex))
      && (ex.TransportFailure? ==> r == Err(ImgurApiException(DeleteFailed, RestClientFailure)))
      && (Refused(ex) ==> r == Err(ImgurApiException(DeleteFailed, NoCause)))
      && (NoSuccessField(ex) ==> r == Err(NullPointerException))
  {
    match server(DeleteRequest(props, deleteHash))
    case TransportFailure => Err(ImgurApiException(DeleteFailed, RestClientFailure))
    case Response(body) =>
      if body.None? then Err(ImgurApiException(DeleteFailed, NoCause))
      else match body.value.success
        case None => Err(NullPointerException)
        case Some(false) => Err(ImgurApiException(DeleteFailed, NoCause))
        case Some(true) => Ok(())
  }

  /**
   * Under the default configuration the delete call addresses the delete
   * hash; it addresses the image hash only if the two are the same string.
   */
  lemma DeleteUsesDeleteHash(deleteHash: string, imageHash: string)
    ensures DeleteRequest(DefaultProperties, deleteHash).url == ImagePrefix + deleteHash
    ensures DeleteRequest(DefaultProperties, deleteHash).url == ImageRequest(DefaultProperties, imageHash).url
            <==> deleteHash == imageHash
  {
    DefaultImageUrl(deleteHash, imageHash);
  }

  /**
   * The three calls never report success on a failed exchange: a transport
   * failure, an absent body or a false flag always end in an exception, and
   * never in the NullPointerException of a malformed envelope.
   */
  lemma FailureIsNeverSuccess(props: Properties, file: UploadFile, hash: string, server: Request -> Exchange)
    requires forall q :: server(q).TransportFailure? || Refused(server(q))
    ensures UploadImage(props, file, server).Err? && UploadImage(props, file, server).error != NullPointerException
    ensures GetImage(props, hash, server) == Err(ImgurApiException(RetrieveFailed, GetImageCause(server(ImageRequest(props, hash)))))
    ensures DeleteImage(props, hash, server).Err? && DeleteImage(props, hash, server).error.ImgurApiException?
  {
    if file.content.Some? {
      var ex := server(UploadRequest(props, file.originalFilename, file.content.value));
    }
    var g := server(ImageRequest(props, hash));
    var d := server(DeleteRequest(props, hash));
  }

  /** The cause a failed metadata fetch carries: only a transport failure has one. */
  function GetImageCause(ex: Exchange): Cause
  {
    if ex.TransportFailure? then RestClientFailure else NoCause
  }
}
