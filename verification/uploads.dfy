/** The pure parts of an image upload: the extension taken from the
    original file name, the stored file name built from the item, its unit
    and the upload time, and the public path handed back to the client. The
    write itself (and the directory it goes to) is file-system work. */
module Uploads {
  import opened JsText
  import opened DateText

  /** `originalName.split('.').pop()`: the text after the last '.', or the
      whole name when it has none. */
  function Extension(originalName: string): (ext: string)
  {
    LastPiece(originalName, '.')
  }

  /** Names the two cases of `Extension`. */
  lemma ExtensionSpec(base: string, ext: string)
    ensures NoSep(base, '.') ==> Extension(base) == base
    ensures NoSep(ext, '.') ==> Extension(base + "." + ext) == ext
  {
    LastPieceSpec(base, '.');
    var s := base + "." + ext;
    LastPieceSpec(s, '.');
    if NoSep(ext, '.') {
      assert s[|base|] == '.' && s[|base| + 1..] == ext;
    }
  }

  /** `${itemName}_${unit}_${stamp}.${extension}`. */
  function UploadFileName(itemName: string, unit: string, stamp: string, ext: string): (f: string)
    ensures |f| == |itemName| + |unit| + |stamp| + |ext| + 3
  {
    itemName + "_" + unit + "_" + stamp + "." + ext
  }

  /** The file name of an upload made at clock reading `c`. */
  function StoredName(originalName: string, itemName: string, unit: string, c: Clock): (f: string)
  {
    UploadFileName(itemName, unit, UploadStamp(c), Extension(originalName))
  }

  /** The stored name ends in the extension of the original name, after a
      '.', and reading the extension back off the stored name gives it
      again. */
  lemma StoredNameExtension(originalName: string, itemName: string, unit: string, c: Clock)
    ensures var ext := Extension(originalName);
            var f := StoredName(originalName, itemName, unit, c);
            && f[|f| - |ext| - 1] == '.' && f[|f| - |ext|..] == ext
            && Extension(f) == ext
  {
    var ext := Extension(originalName);
    var stem := itemName + "_" + unit + "_" + UploadStamp(c);
    SplitPiecesNoSep(originalName, '.');
    assert NoSep(ext, '.');
    ExtensionSpec(stem, ext);
    assert StoredName(originalName, itemName, unit, c) == stem + "." + ext;
  }

  /** `/uploads/${categoryName}/${uniqueFileName}`. */
  function PublicPath(category: string, fileName: string): (p: string)
    ensures |p| == |category| + |fileName| + 10 && p[..9] == "/uploads/"
  {
    "/uploads/" + category + "/" + fileName
  }

  /** For a category and file name without '/', the public path splits into
      an empty root piece, "uploads", the category and the file name. */
  lemma PublicPathSegments(category: string, fileName: string)
    requires NoSep(category, '/') && NoSep(fileName, '/')
    ensures Split(PublicPath(category, fileName), '/') == ["", "uploads", category, fileName]
  {
    var parts := ["", "uploads", category, fileName];
    JoinSnoc([""], "uploads", '/');
    JoinSnoc(["", "uploads"], category, '/');
    JoinSnoc(["", "uploads", category], fileName, '/');
    assert [""] + ["uploads"] == ["", "uploads"];
    assert ["", "uploads"] + [category] == ["", "uploads", category];
    assert ["", "uploads", category] + [fileName] == parts;
    assert Join([""], '/') == "";
    assert Join(["", "uploads"], '/') == "/uploads";
    assert Join(["", "uploads", category], '/') == "/uploads/" + category;
    assert Join(parts, '/') == PublicPath(category, fileName);
    SplitJoin(parts, '/');
  }

  /** The query the branch pages send for a picture:
      `imgUrl.replace('/uploads/', '')`. */
  function ReadQuery(imgUrl: string): string
  {
    ReplaceFirst(imgUrl, "/uploads/", "")
  }

  /** The query for an uploaded picture is its category and file name. */
  lemma ReadQueryOfPublicPath(category: string, fileName: string)
    ensures ReadQuery(PublicPath(category, fileName)) == category + "/" + fileName
  {
    assert PublicPath(category, fileName) == "/uploads/" + (category + "/" + fileName);
    ReplaceFirstPrefix("/uploads/", category + "/" + fileName);
  }
}
