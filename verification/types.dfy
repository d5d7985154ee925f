/** Records shared by the repository, the service and the link helpers. */
module Types {

  /** A shortened link: its short code, the original target and the visit count. */
  datatype Url = Url(id: string, url: string, count: nat)

  /** What the JSON endpoints send back for one link. */
  datatype ResponseUrl = ResponseUrl(id: string, shortUrl: string, longUrl: string, count: nat)

  /** The repository has a single, field-less error. */
  datatype UrlError = UrlError

  /** Success or failure of a repository or service call. */
  datatype Result<+T> = Ok(value: T) | Err(error: UrlError)

  datatype Option<+T> = None | Some(value: T)

  function Min(a: int, b: int): int { if a <= b then a else b }

  function Max(a: int, b: int): int { if a <= b then b else a }
}
