/** Shapes of the regulations.gov JSON payloads as the harvester reads them.

    Python reads these payloads with `dict.get(key, default)`. A key that is
    absent comes out as `None` here, and each reader applies the default the
    source gives for that key. A key that holds JSON null is read the same
    way, although in Python `get` then returns `None` instead of the default
    and the code that follows raises an exception; those crashes are not
    modelled.
 */
module Payload {

  /** A value that may be absent (a missing key, a JSON null, a `None` return). */
  datatype Option<+T> = None | Some(value: T) {

    /** The value, or `default` when absent: `d.get(key, default)`. */
    function GetOr(default: T): T {
      match this
      case Some(v) => v
      case None => default
    }
  }

  /** Python truthiness of an optional string: present and non-empty. */
  predicate Truthy(s: Option<string>) {
    s.Some? && s.value != ""
  }

  /** What one `requests.get` attempt produced: a response carrying a status
      code and its decoded JSON body, or a raised exception. */
  datatype Attempt<+T> = Answered(status: int, body: T) | Raised

  /** The only success: HTTP 200. */
  predicate IsOk<T>(o: Attempt<T>) {
    o.Answered? && o.status == 200
  }

  /** HTTP 429, the rate limit of one API key. */
  predicate IsRateLimited<T>(o: Attempt<T>) {
    o.Answered? && o.status == 429
  }

  /** The body of one page of a list endpoint: `data` and `meta.hasNextPage`. */
  datatype PageBody<+T> = PageBody(data: Option<seq<T>>, hasNextPage: Option<bool>) {

    /** `data.get("data", [])` */
    function Items(): seq<T> {
      data.GetOr([])
    }

    /** `meta.get("hasNextPage", False)` read as a condition */
    predicate HasNext() {
      hasNextPage == Some(true)
    }
  }

  /** A document of the docket; only `attributes.objectId` is read. */
  datatype Document = Document(objectId: Option<string>)

  /** The comment attributes the row builder reads. */
  datatype Attributes = Attributes(
    title: Option<string>,
    postedDate: Option<string>,
    documentType: Option<string>,
    comment: Option<string>)

  /** `{}`: the default when `attributes` is missing. */
  const NoAttributes: Attributes := Attributes(None, None, None, None)

  /** One item of the comments list: `id` and `attributes`. */
  datatype CommentSummary = CommentSummary(id: Option<string>, attributes: Option<Attributes>)

  /** One entry of an attachment's `attributes.fileFormats`. */
  datatype FileFormat = FileFormat(fileUrl: Option<string>)

  /** One element of a comment detail's `included` list: its `type` and its
      `attributes.fileFormats`. */
  datatype Included = Included(kind: Option<string>, fileFormats: Option<seq<FileFormat>>) {

    /** `item.get("type") == "attachments"` */
    predicate IsAttachment() {
      kind == Some("attachments")
    }

    /** `item.get("attributes", {}).get("fileFormats", [])` */
    function Formats(): seq<FileFormat> {
      fileFormats.GetOr([])
    }
  }

  /** A comment detail payload (`GET /comments/{id}?include=attachments`):
      `data.attributes` and `included`. */
  datatype Detail = Detail(attributes: Option<Attributes>, included: Option<seq<Included>>) {

    /** `comment_details.get("data", {}).get("attributes", {})` */
    function Attrs(): Attributes {
      attributes.GetOr(NoAttributes)
    }

    /** `comment_details.get("included", [])` */
    function Items(): seq<Included> {
      included.GetOr([])
    }
  }
}
