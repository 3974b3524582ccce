/**
 * The `app.py` variant of the endpoint: image sources are cleaned (HTTPS
 * only, duplicates removed) before they are returned.
 */
module App {

  import opened Wrappers
  import opened Elements
  import opened Http
  import opened Metadata

  const HttpsPrefix := "https://"

  /** `url.startswith("https://")`. */
  predicate IsHttps(u: string)
  {
    |HttpsPrefix| <= |u| && u[..|HttpsPrefix|] == HttpsPrefix
  }

  /**
   * The set comprehension of `clean_image_urls`: the truthy sources that
   * start with the HTTPS scheme.
   */
  function HttpsSet(srcs: seq<Option<string>>): (s: set<string>)
    ensures forall u :: u in s <==> Some(u) in srcs && IsHttps(u)
  {
    var s := set i | 0 <= i < |srcs| && Truthy(srcs[i]) && IsHttps(srcs[i].value) :: srcs[i].value;
    assert forall u :: Some(u) in srcs && IsHttps(u) ==> u in s by {
      forall u | Some(u) in srcs && IsHttps(u) ensures u in s {
        var i :| 0 <= i < |srcs| && srcs[i] == Some(u);
      }
    }
    s
  }

  /** The comprehension keeps at most one string per source. */
  lemma {:induction false} HttpsSetBound(srcs: seq<Option<string>>)
    ensures |HttpsSet(srcs)| <= |srcs|
  {
    if srcs != [] {
      var init := srcs[..|srcs| - 1];
      var last := srcs[|srcs| - 1];
      HttpsSetBound(init);
      var extra: set<string> := if last.Some? then {last.value} else {};
      assert HttpsSet(srcs) <= HttpsSet(init) + extra by {
        forall u | u in HttpsSet(srcs) ensures u in HttpsSet(init) + extra {
          var i :| 0 <= i < |srcs| && srcs[i] == Some(u);
          if i < |init| {
            assert init[i] == srcs[i];
          }
        }
      }
      assert |HttpsSet(init) + extra| <= |HttpsSet(init)| + |extra|;
      SubsetSize(HttpsSet(srcs), HttpsSet(init) + extra);
    }
  }

  lemma SubsetSize<T>(a: set<T>, b: set<T>)
    requires a <= b
    ensures |a| <= |b|
  {
    assert b == a + (b - a);
  }

  /**
   * `clean_image_urls`: `list()` of the comprehension's set. The order of a
   * Python set is unspecified, so any element may be taken next.
   */
  method CleanImageUrls(srcs: seq<Option<string>>) returns (urls: seq<string>)
    ensures forall i :: 0 <= i < |urls| ==> urls[i] != "" && IsHttps(urls[i])
    ensures forall i, j :: 0 <= i < j < |urls| ==> urls[i] != urls[j]
    ensures forall u :: u in urls <==> Some(u) in srcs && IsHttps(u)
    ensures |urls| <= |srcs|
  {
    var cleaned := HttpsSet(srcs);
    urls := [];
    var rest := cleaned;
    while rest != {}
      invariant rest <= cleaned
      invariant forall u :: u in urls <==> u in cleaned && u !in rest
      invariant forall i, j :: 0 <= i < j < |urls| ==> urls[i] != urls[j]
      invariant |urls| + |rest| == |cleaned|
      decreases rest
    {
      var u :| u in rest;
      urls := urls + [u];
      rest := rest - {u};
    }
    forall i | 0 <= i < |urls| ensures IsHttps(urls[i]) {
      assert urls[i] in urls;
    }
    HttpsSetBound(srcs);
  }

  /**
   * `extract_content`: a falsy `url` is answered with 400, a reply that does
   * not depend on the rendered page; otherwise the cleaned image sources and the metadata
   * of the rendered page are returned with 200.
   */
  method ExtractContent(url: Option<string>, page: Page) returns (r: Response<string>)
    ensures !Truthy(url) <==> r == Failure(BadRequest, UrlRequired)
    ensures Truthy(url) ==> r.Success? && r.status == Ok
    ensures r.Success? ==> r.metadata == MetadataOf(page.metas)
    ensures r.Success? ==> forall u :: u in r.imageUrls <==> Img(Some(u)) in page.imgs && IsHttps(u)
    ensures r.Success? ==> forall i, j :: 0 <= i < j < |r.imageUrls| ==> r.imageUrls[i] != r.imageUrls[j]
  {
    if !Truthy(url) {
      return Failure(BadRequest, UrlRequired);
    }
    var srcs := SrcAttributes(page.imgs);
    var imageUrls := CleanImageUrls(srcs);
    var metadata := ExtractMetadata(page.metas);
    r := Success(Ok, imageUrls, metadata);
    forall u ensures Some(u) in srcs <==> Img(Some(u)) in page.imgs {
      if Some(u) in srcs {
        var i :| 0 <= i < |srcs| && srcs[i] == Some(u);
        assert page.imgs[i] == Img(Some(u));
      }
      if Img(Some(u)) in page.imgs {
        var i :| 0 <= i < |page.imgs| && page.imgs[i] == Img(Some(u));
        assert srcs[i] == Some(u);
      }
    }
  }
}
