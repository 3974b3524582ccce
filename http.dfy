/** The JSON replies of the `/extract-content` endpoint, before serialisation. */
module Http {

  import opened Wrappers

  /** Metadata as a dictionary from meta key to the (possibly absent) content. */
  type Metadata = map<string, Option<string>>

  /**
   * `{"error": ...}` with its status, or `{"image_urls": ..., "metadata": ...}`
   * with its status; `I` is the type of one image-list entry.
   */
  datatype Response<I> =
    | Failure(status: nat, error: string)
    | Success(status: nat, imageUrls: seq<I>, metadata: Metadata)

  const UrlRequired := "URL is required"
  const BadRequest: nat := 400
  const Ok: nat := 200
}
