/** The MIME registry of package server.config: a mutable map from file
    extension to content type, with add-or-override and lookup-with-default. */
module Config {

  const DefaultMimeType: string := "application/octet-stream"

  /** Map.getOrDefault(extension, "application/octet-stream"). */
  function Lookup(table: map<string, string>, extension: string): string {
    if extension in table then table[extension] else DefaultMimeType
  }

  /** The nine mappings the default registry is built from. */
  function DefaultTable(): map<string, string> {
    map[
      "png" := "image/png",
      "jpg" := "image/jpeg",
      "jpeg" := "image/jpeg",
      "txt" := "text/plain",
      "html" := "text/html",
      "htm" := "text/html",
      "css" := "text/css",
      "js" := "application/javascript",
      "json" := "application/json"
    ]
  }

  class MimeTypes {
    var mimeTypes: map<string, string>

    /** A fresh registry has no mappings: every lookup gives the default type. */
    constructor ()
      ensures mimeTypes == map[]
      ensures forall e :: GetMimeTypeFromExtension(e) == DefaultMimeType
    {
      mimeTypes := map[];
    }

    /** The registry the server starts with, built by nine additions. */
    static method GetDefault() returns (r: MimeTypes)
      ensures fresh(r)
      ensures r.mimeTypes == DefaultTable()
    {
      r := new MimeTypes();
      r.AddMimeType("png", "image/png");
      r.AddMimeType("jpg", "image/jpeg");
      r.AddMimeType("jpeg", "image/jpeg");
      r.AddMimeType("txt", "text/plain");
      r.AddMimeType("html", "text/html");
      r.AddMimeType("htm", "text/html");
      r.AddMimeType("css", "text/css");
      r.AddMimeType("js", "application/javascript");
      r.AddMimeType("json", "application/json");
    }

    /** Adds a mapping, replacing any earlier one for the same extension. */
    method AddMimeType(extension: string, mimeType: string)
      modifies this
      ensures mimeTypes == old(mimeTypes)[extension := mimeType]
      ensures GetMimeTypeFromExtension(extension) == mimeType
      ensures forall e :: e != extension ==>
        GetMimeTypeFromExtension(e) == old(GetMimeTypeFromExtension(e))
    {
      mimeTypes := mimeTypes[extension := mimeType];
    }

    /** The mapped type of a key, the default type for anything else. */
    function GetMimeTypeFromExtension(extension: string): (r: string)
      reads this
      ensures extension in mimeTypes ==> r == mimeTypes[extension]
      ensures extension !in mimeTypes ==> r == DefaultMimeType
    {
      Lookup(mimeTypes, extension)
    }
  }

  /** Lookup in the default registry: exactly the nine listed extensions are
      mapped, case-sensitively; everything else falls back to the default. */
  lemma DefaultLookup(extension: string)
    ensures Lookup(DefaultTable(), extension) ==
      if extension == "png" then "image/png"
      else if extension == "jpg" || extension == "jpeg" then "image/jpeg"
      else if extension == "txt" then "text/plain"
      else if extension == "html" || extension == "htm" then "text/html"
      else if extension == "css" then "text/css"
      else if extension == "js" then "application/javascript"
      else if extension == "json" then "application/json"
      else DefaultMimeType
  {
  }

  /** Lookup is case-sensitive and has no entry for the empty extension. */
  lemma DefaultFallbacks()
    ensures Lookup(DefaultTable(), "PNG") == DefaultMimeType
    ensures Lookup(DefaultTable(), "") == DefaultMimeType
  {
    DefaultLookup("PNG");
    DefaultLookup("");
  }

  /** A client of the class: building the default registry by hand, then
      overriding one entry, changes only that entry's lookup. */
  method OverrideExample() returns (before: string, after: string, other: string)
    ensures before == "text/plain" && after == "text/markdown" && other == "image/png"
  {
    var registry := MimeTypes.GetDefault();
    before := registry.GetMimeTypeFromExtension("txt");
    registry.AddMimeType("txt", "text/markdown");
    after := registry.GetMimeTypeFromExtension("txt");
    other := registry.GetMimeTypeFromExtension("png");
  }
}
