/**
 * The element records the browser hands back after rendering a page.
 * Every element query returns its elements in document order, and every
 * attribute read yields the attribute's text or None when it is absent.
 */
module Elements {

  import opened Wrappers

  /** A `<meta>` element with the three attributes the extractor reads. */
  datatype Meta = Meta(property: Option<string>, name: Option<string>, content: Option<string>)

  /** An `<img>` element; only its `src` attribute is read. */
  datatype Img = Img(src: Option<string>)

  /** What the browser session yields for one rendered URL. */
  datatype Page = Page(imgs: seq<Img>, metas: seq<Meta>)

  /** Python truthiness of an optional string: present and non-empty. */
  predicate Truthy(s: Option<string>)
  {
    s.Some? && s.value != ""
  }

  /**
   * The list comprehension `[item.get_attribute("src") for item in items]`:
   * one entry per image element, in element order, absent attributes and
   * duplicates kept.
   */
  function SrcAttributes(imgs: seq<Img>): (srcs: seq<Option<string>>)
    ensures |srcs| == |imgs|
    ensures forall i :: 0 <= i < |imgs| ==> srcs[i] == imgs[i].src
  {
    if imgs == [] then [] else [imgs[0].src] + SrcAttributes(imgs[1..])
  }
}
