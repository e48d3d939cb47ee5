/** The pure string steps of the storage upload helpers
    (src/utils/supabaseStorage.ts): the object key of an upload, the cleaned
    fetch URL, the content type and extension of a fetched blob, and the
    sanitised file name it is stored under. */
module StorageNaming {
  import opened Wrappers
  import Text

  /** Object key of an upload: the file name inside the folder `path`, or the
      bare file name when no folder (or an empty one) is given. */
  function UploadPath(path: Option<string>, fileName: string): (key: string)
    ensures path.None? || path.value == "" ==> key == fileName
    ensures path.Some? && path.value != "" ==>
      && |key| == |path.value| + 1 + |fileName|
      && key[..|path.value|] == path.value
      && key[|path.value|] == '/'
      && key[|path.value| + 1..] == fileName
  {
    if path.Some? && path.value != "" then path.value + "/" + fileName else fileName
  }

  /** The `/`-separated segments of an object key are the folder's segments
      followed by the file name's. */
  lemma UploadPathSegments(path: Option<string>, fileName: string)
    ensures Text.Split(UploadPath(path, fileName), '/') ==
      (if path.Some? && path.value != "" then Text.Split(path.value, '/') else [])
      + Text.Split(fileName, '/')
  {
    if path.Some? && path.value != "" {
      Text.SplitAround(path.value, '/', fileName);
    }
  }

  /** `url.split('?')[0]`: the URL with its query string removed. */
  function CleanUrl(url: string): (clean: string)
    ensures clean <= url
    ensures '?' !in clean
    ensures clean == url || url[|clean|] == '?'
  {
    Text.FirstPiece(url, '?');
    Text.Split(url, '?')[0]
  }

  /** Cleaning an already cleaned URL changes nothing. */
  lemma CleanUrlIdempotent(url: string)
    ensures CleanUrl(CleanUrl(url)) == CleanUrl(url)
  {
    Text.SplitWithoutSeparator(CleanUrl(url), '?');
  }

  /** A URL with a query string cleans to the part before the `?`, whatever
      the query holds. */
  lemma CleanUrlDropsQuery(base: string, query: string)
    requires '?' !in base
    ensures CleanUrl(base + "?" + query) == base
  {
    Text.SplitAround(base, '?', query);
    Text.SplitWithoutSeparator(base, '?');
  }

  /** Content type assumed for a blob that reports none. */
  const DefaultContentType := "image/jpeg"

  /** Extension used when the content type has no usable subtype. */
  const DefaultExtension := "jpg"

  /** `blob.type || 'image/jpeg'`. */
  function ContentType(blobType: string): (contentType: string)
    ensures contentType != ""
    ensures blobType != "" ==> contentType == blobType
    ensures blobType == "" ==> contentType == DefaultContentType
  {
    if blobType != "" then blobType else DefaultContentType
  }

  /** `contentType.split('/')[1] || 'jpg'`: the second `/`-separated segment
      of the content type, or `jpg` when it is missing or empty. */
  function FileExtension(contentType: string): (ext: string)
    ensures ext != ""
    ensures '/' !in ext
    ensures |Text.Split(contentType, '/')| < 2 || Text.Split(contentType, '/')[1] == "" ==>
      ext == DefaultExtension
  {
    var parts := Text.Split(contentType, '/');
    if |parts| >= 2 && parts[1] != "" then parts[1] else DefaultExtension
  }

  /** For a media type `kind/subtype` (optionally followed by more
      `/`-separated text) the extension is the subtype. */
  lemma ExtensionIsSubtype(kind: string, subtype: string, more: Option<string>)
    requires '/' !in kind && '/' !in subtype && subtype != ""
    ensures FileExtension(kind + "/" + subtype + (if more.Some? then "/" + more.value else "")) == subtype
  {
    var ct := kind + "/" + subtype + (if more.Some? then "/" + more.value else "");
    Text.SplitWithoutSeparator(kind, '/');
    if more.Some? {
      assert ct == kind + ['/'] + (subtype + ['/'] + more.value);
      Text.SplitAround(kind, '/', subtype + ['/'] + more.value);
      Text.SplitAround(subtype, '/', more.value);
      Text.SplitWithoutSeparator(subtype, '/');
    } else {
      assert ct == kind + ['/'] + subtype;
      Text.SplitAround(kind, '/', subtype);
      Text.SplitWithoutSeparator(subtype, '/');
    }
  }

  /** A content type without a `/`, or with an empty subtype, gets `jpg`. */
  lemma ExtensionDefaults(contentType: string)
    requires '/' !in contentType || (exists kind :: '/' !in kind && contentType == kind + "/")
    ensures FileExtension(contentType) == DefaultExtension
  {
    if '/' in contentType {
      var kind :| '/' !in kind && contentType == kind + "/";
      assert contentType == kind + ['/'] + "";
      Text.SplitAround(kind, '/', "");
      Text.SplitWithoutSeparator(kind, '/');
    } else {
      Text.SplitWithoutSeparator(contentType, '/');
    }
  }

  /** A blob without a type is taken as `image/jpeg` and so is stored with
      extension `jpeg`, not the `jpg` fallback. */
  lemma UntypedBlobExtension()
    ensures FileExtension(ContentType("")) == "jpeg"
  {
    ExtensionIsSubtype("image", "jpeg", None);
    assert "image" + "/" + "jpeg" + "" == DefaultContentType;
  }

  /** Characters kept by `/[^a-zA-Z0-9-_]/g`: ASCII letters, digits, `-` and
      `_` (the second `-` in the class is a literal, not a range). */
  predicate IsSafeChar(c: char) {
    ('a' <= c <= 'z') || ('A' <= c <= 'Z') || ('0' <= c <= '9') || c == '-' || c == '_'
  }

  /** `name.replace(/[^a-zA-Z0-9-_]/g, '-')`: every code unit outside the
      class becomes `-`, the others stay. */
  function Sanitize(name: string): (safe: string)
    ensures |safe| == |name|
    ensures forall i :: 0 <= i < |name| ==>
      safe[i] == (if IsSafeChar(name[i]) then name[i] else '-')
  {
    if |name| == 0 then ""
    else [if IsSafeChar(name[0]) then name[0] else '-'] + Sanitize(name[1..])
  }

  /** The sanitised name consists of safe characters only. */
  lemma SanitizedIsSafe(name: string)
    ensures forall i :: 0 <= i < |Sanitize(name)| ==> IsSafeChar(Sanitize(name)[i])
  {
  }

  /** Sanitising leaves a name unchanged exactly when all of it is safe. */
  lemma SanitizeFixedPoints(name: string)
    ensures Sanitize(name) == name <==> forall i :: 0 <= i < |name| ==> IsSafeChar(name[i])
  {
    if forall i :: 0 <= i < |name| ==> IsSafeChar(name[i]) {
      assert forall i :: 0 <= i < |name| ==> Sanitize(name)[i] == name[i];
    }
  }

  /** Sanitising twice is the same as sanitising once. */
  lemma SanitizeIdempotent(name: string)
    ensures Sanitize(Sanitize(name)) == Sanitize(name)
  {
    SanitizeFixedPoints(Sanitize(name));
  }

  /** The name a fetched image is stored under: the sanitised base name, a
      dot, and the extension. */
  function SafeFilename(filename: string, ext: string): (stored: string)
    ensures |stored| == |filename| + 1 + |ext|
    ensures stored[..|filename|] == Sanitize(filename)
    ensures stored[|filename|] == '.'
    ensures stored[|filename| + 1..] == ext
  {
    Sanitize(filename) + "." + ext
  }

  /** The base name and the extension can be read back from the stored name:
      its first `.`-separated piece is the sanitised base name, and when the
      extension has no dot the pieces are exactly the two parts. */
  lemma SafeFilenamePieces(filename: string, ext: string)
    ensures Text.Split(SafeFilename(filename, ext), '.')[0] == Sanitize(filename)
    ensures '.' !in ext ==> Text.Split(SafeFilename(filename, ext), '.') == [Sanitize(filename), ext]
  {
    var base := Sanitize(filename);
    assert '.' !in base by {
      forall i | 0 <= i < |base| ensures base[i] != '.' {
        assert IsSafeChar(base[i]);
      }
    }
    assert SafeFilename(filename, ext) == base + ['.'] + ext;
    Text.SplitAround(base, '.', ext);
    Text.SplitWithoutSeparator(base, '.');
    if '.' !in ext {
      Text.SplitWithoutSeparator(ext, '.');
    }
  }
}
