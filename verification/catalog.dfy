/**
 * The fixed template catalog and the request validation that runs before
 * any browser is launched.
 *
 * The source looks ids up in a plain JavaScript object, so a prototype key
 * such as "constructor" would also pass its check and fail later inside the
 * browser session; and the HTTP framework may hand over `id` or `text` as an
 * array (an array id such as ["3"] passes the lookup and is echoed back as
 * the template id). This model takes the catalog as exactly five keys, and
 * `id` and `text` as strings.
 */
module Catalog {
  import opened Wrappers

  /** Every template page lives under this prefix. */
  const TemplateBase: string := "https://textpro.me/create-"

  /** Template id to the rest of its template page's URL after `TemplateBase`. */
  const Templates: map<string, string> := map[
    "1" := "glitch-text-effect-online-1028.html",
    "2" := "neon-light-text-effect-online-882.html",
    "3" := "3d-gradient-text-effect-online-1005.html",
    "4" := "blackpink-logo-style-online-1001.html",
    "5" := "multicolor-3d-text-effect-online-975.html"
  ]

  /** The ids the service documents: "1" to "5". */
  predicate IsKnownId(id: string) {
    id == "1" || id == "2" || id == "3" || id == "4" || id == "5"
  }

  predicate IsPrefix(p: string, s: string) {
    |p| <= |s| && s[..|p|] == p
  }

  /** Catalog lookup: every known id, and only those, names a template page on textpro.me. */
  function Resolve(id: string): (r: Option<string>)
    ensures r.Some? <==> IsKnownId(id)
    ensures r.Some? ==> IsPrefix(TemplateBase, r.value)
  {
    if id in Templates then
      var url := TemplateBase + Templates[id];
      assert url[..|TemplateBase|] == TemplateBase;
      Some(url)
    else None
  }

  /** No two ids share a template page. */
  lemma CatalogIsInjective(a: string, b: string)
    requires IsKnownId(a) && IsKnownId(b) && a != b
    ensures Resolve(a).Some? && Resolve(b).Some? && Resolve(a).value != Resolve(b).value
  {
  }

  /** JavaScript truthiness of a query parameter: present and not empty. */
  predicate Truthy(s: Option<string>) {
    s.Some? && s.value != ""
  }

  /** A query string as the handler receives it; an absent parameter is `None`. */
  datatype Request = Request(id: Option<string>, text: Option<string>)

  datatype RequestError = InvalidOrMissingId | MissingText

  datatype Validated =
    | Accepted(id: string, url: string, text: string)
    | Rejected(error: RequestError)

  /** The two guards of the handler, the id guard first. */
  function Validate(req: Request): (v: Validated)
    ensures v == Rejected(InvalidOrMissingId) <==> req.id.None? || !IsKnownId(req.id.value)
    ensures v == Rejected(MissingText) <==>
      req.id.Some? && IsKnownId(req.id.value) && (req.text.None? || req.text.value == "")
    ensures v.Accepted? ==>
      && req.id == Some(v.id)
      && req.text == Some(v.text)
      && v.text != ""
      && Resolve(v.id) == Some(v.url)
  {
    if !Truthy(req.id) || Resolve(req.id.value).None? then Rejected(InvalidOrMissingId)
    else if !Truthy(req.text) then Rejected(MissingText)
    else Accepted(req.id.value, Resolve(req.id.value).value, req.text.value)
  }

  /** An unknown or missing id is reported as such whatever the text is. */
  lemma IdCheckedBeforeText(id: Option<string>, t1: Option<string>, t2: Option<string>)
    requires id.None? || !IsKnownId(id.value)
    ensures Validate(Request(id, t1)) == Validate(Request(id, t2)) == Rejected(InvalidOrMissingId)
  {
  }
}
