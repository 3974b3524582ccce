/**
 * The `scrape.py` variant of the endpoint: every image source is returned
 * as read, with no filtering.
 */
module Scrape {

  import opened Wrappers
  import opened Elements
  import opened Http
  import opened Metadata

  /**
   * `extract_content`: a falsy `url` is answered with 400, a reply that does
   * not depend on the rendered page; otherwise the `src` of every image element, in element
   * order, and the metadata of the rendered page are returned with 200.
   */
  method ExtractContent(url: Option<string>, page: Page) returns (r: Response<Option<string>>)
    ensures !Truthy(url) <==> r == Failure(BadRequest, UrlRequired)
    ensures Truthy(url) ==> r.Success? && r.status == Ok
    ensures r.Success? ==> r.metadata == MetadataOf(page.metas)
    ensures r.Success? ==> |r.imageUrls| == |page.imgs|
    ensures r.Success? ==> forall i :: 0 <= i < |page.imgs| ==> r.imageUrls[i] == page.imgs[i].src
  {
    if !Truthy(url) {
      return Failure(BadRequest, UrlRequired);
    }
    var imageUrls := SrcAttributes(page.imgs);
    var metadata := ExtractMetadata(page.metas);
    r := Success(Ok, imageUrls, metadata);
  }
}
