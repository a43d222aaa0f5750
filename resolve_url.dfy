/** `resolveUrl`: a link to a CMS document resolves to the empty URL, any
    other link to its own `url`. */
module ResolveUrlUtil {

  /** A link as the documents carry it; an absent field is the empty string. */
  datatype Link = Link(linkType: string, url: string, target: string)

  function ResolveUrl(link: Link): (r: string)
    ensures link.linkType == "Document" ==> r == ""
    ensures link.linkType != "Document" ==> r == link.url
  {
    if "Document" == link.linkType then "" else link.url
  }

  /** Only `link_type` and `url` matter: the target is ignored. */
  lemma ResolveUrlIgnoresTarget(a: Link, b: Link)
    requires a.linkType == b.linkType && a.url == b.url
    ensures ResolveUrl(a) == ResolveUrl(b)
  {
  }
}
