/** The picture-serving route: the `path` query is split on '/', joined
    under `<cwd>/uploads` (or replaced by the placeholder picture when it is
    absent or starts with an empty segment), and the file found there is sent
    with a MIME type chosen from its extension. Paths are modelled as
    sequences of segments; `path.join` joins and then normalises them, which
    drops empty and "." segments and lets ".." remove the segment before it.
    Whether a file exists is a parameter. */
module ImageRoute {
  import opened Common
  import opened JsText
  import Uploads

  type Path = seq<string>

  /** The placeholder picture `<cwd>/public/svgs/placeholder.svg`. */
  function Placeholder(cwd: Path): (p: Path)
    ensures |p| == |cwd| + 3 && p[..|cwd|] == cwd
  {
    cwd + ["public", "svgs", "placeholder.svg"]
  }

  /** A segment that normalisation keeps as it is. */
  predicate PlainSegment(x: string)
  {
    x != "" && x != "." && x != ".."
  }

  /** One step of normalising an absolute path: "" and "." vanish, ".."
      removes the previous segment (and stays at the root), anything else
      is appended. */
  function Step(acc: Path, x: string): (r: Path)
  {
    if x == "" || x == "." then acc
    else if x == ".." then (if |acc| == 0 then [] else acc[..|acc| - 1])
    else acc + [x]
  }

  /** `path.join` of an absolute path, segment by segment. */
  function Normalize(acc: Path, segs: seq<string>): (r: Path)
    decreases |segs|
  {
    if |segs| == 0 then acc else Normalize(Step(acc, segs[0]), segs[1..])
  }

  /** The segments of `segs` that normalisation keeps unchanged, in order. */
  function PlainSegments(segs: seq<string>): (r: seq<string>)
    ensures forall i :: 0 <= i < |r| ==> PlainSegment(r[i])
    ensures forall i :: 0 <= i < |r| ==> r[i] in segs
    ensures (forall i :: 0 <= i < |segs| ==> PlainSegment(segs[i])) ==> r == segs
    decreases |segs|
  {
    if |segs| == 0 then []
    else if PlainSegment(segs[0]) then [segs[0]] + PlainSegments(segs[1..])
    else PlainSegments(segs[1..])
  }

  lemma {:induction false} NormalizeAppend(acc: Path, a: seq<string>, b: seq<string>)
    ensures Normalize(acc, a + b) == Normalize(Normalize(acc, a), b)
    decreases |a|
  {
    if |a| == 0 {
      assert a + b == b;
    } else {
      assert (a + b)[0] == a[0] && (a + b)[1..] == a[1..] + b;
      NormalizeAppend(Step(acc, a[0]), a[1..], b);
    }
  }

  /** Without ".." segments normalisation only ever appends: the starting
      path stays a prefix, and the rest is the input with "" and "."
      dropped. */
  lemma {:induction false} NormalizeNoParent(acc: Path, segs: seq<string>)
    requires forall i :: 0 <= i < |segs| ==> segs[i] != ".."
    ensures Normalize(acc, segs) == acc + PlainSegments(segs)
    decreases |segs|
  {
    if |segs| > 0 {
      NormalizeNoParent(Step(acc, segs[0]), segs[1..]);
      if PlainSegment(segs[0]) {
        assert acc + [segs[0]] + PlainSegments(segs[1..]) == acc + PlainSegments(segs);
      }
    }
  }

  // ---------------------------------------------------------------------
  // the query

  /** `searchParams.get('path')?.split('/') || []`: no segments when the
      query is absent (a split always yields at least one piece, so the
      `|| []` only applies to an absent query). */
  function QueryParts(q: Option<string>): (parts: seq<string>)
    ensures q.None? <==> |parts| == 0
  {
    match q
    case None => []
    case Some(s) => Split(s, '/')
  }

  /** The first piece of a split is the text before the first separator. */
  lemma {:induction false} SplitFirst(s: string, sep: char)
    ensures Split(s, sep)[0] == s[..FirstIndex(s, sep)]
  {
    if |s| > 0 {
      var pre := s[..|s| - 1];
      SplitFirst(pre, sep);
      assert s == pre + [s[|s| - 1]];
      if s[|s| - 1] == sep {
        SplitFirstSepStep(pre, sep);
      } else {
        SplitFirstCharStep(pre, s[|s| - 1], sep);
      }
    }
  }

  lemma SplitFirstSepStep(pre: string, sep: char)
    requires Split(pre, sep)[0] == pre[..FirstIndex(pre, sep)]
    ensures Split(pre + [sep], sep)[0] == (pre + [sep])[..FirstIndex(pre + [sep], sep)]
  {
    SplitSnocSep(pre, sep);
    FirstIndexPrefix(pre, sep, sep);
    var k := FirstIndex(pre, sep);
    assert (pre + [sep])[..k] == pre[..k];
  }

  lemma SplitFirstCharStep(pre: string, c: char, sep: char)
    requires c != sep
    requires Split(pre, sep)[0] == pre[..FirstIndex(pre, sep)]
    ensures Split(pre + [c], sep)[0] == (pre + [c])[..FirstIndex(pre + [c], sep)]
  {
    var s := pre + [c];
    var rest := Split(pre, sep);
    assert s[..|s| - 1] == pre;
    if sep in pre {
      FirstIndexPrefix(pre, c, sep);
      JoinSplit(pre, sep);
      SplitPiecesNoSep(pre, sep);
      assert |rest| != 1;
      var k := FirstIndex(pre, sep);
      assert s[..k] == pre[..k];
    } else {
      SplitNoSep(pre, sep);
      assert sep !in s;
    }
  }

  /** The placeholder is used exactly when the query is absent, empty, or
      starts with '/'. */
  function UsesPlaceholder(q: Option<string>): (b: bool)
    ensures b <==> q.None? || |q.value| == 0 || q.value[0] == '/'
  {
    match q
    case None => |QueryParts(q)| == 0
    case Some(s) => SplitFirst(s, '/'); QueryParts(q)[0] == ""
  }

  /** The file the route reads, as written: the query's segments joined
      under `<cwd>/uploads`. */
  function Resolve(cwd: Path, q: Option<string>): Path
  {
    if UsesPlaceholder(q) then Placeholder(cwd)
    else Normalize([], cwd + ["uploads"] + QueryParts(q))
  }

  /** A query without ".." segments is read from under `<cwd>/uploads`,
      its segments in order with empty and "." segments dropped. */
  lemma ResolveUnderUploads(cwd: Path, q: Option<string>)
    requires forall i :: 0 <= i < |cwd| ==> PlainSegment(cwd[i])
    requires !UsesPlaceholder(q)
    requires forall i :: 0 <= i < |QueryParts(q)| ==> QueryParts(q)[i] != ".."
    ensures Resolve(cwd, q) == cwd + ["uploads"] + PlainSegments(QueryParts(q))
  {
    var parts := QueryParts(q);
    var base := cwd + ["uploads"];
    assert PlainSegment("uploads");
    assert forall i :: 0 <= i < |base| ==> PlainSegment(base[i]);
    NormalizeAppend([], base, parts);
    NormalizeNoParent([], base);
    assert PlainSegments(base) == base;
    assert Normalize([], base) == base;
    NormalizeNoParent(base, parts);
    assert Resolve(cwd, q) == Normalize([], base + parts);
  }

  /** As written, ".." segments climb out of the uploads directory: the
      query `../<f>` reads `<cwd>/<f>`, next to the uploads directory rather
      than inside it (with `cwd = /app`, `../secret.txt` reads
      `/app/secret.txt`). */
  lemma ResolveEscapes(cwd: Path, f: string)
    requires forall i :: 0 <= i < |cwd| ==> PlainSegment(cwd[i])
    requires PlainSegment(f) && NoSep(f, '/')
    ensures Resolve(cwd, Some("../" + f)) == cwd + [f]
    ensures Resolve(cwd, Some("../" + f)) != cwd + ["uploads", f]
  {
    var q := "../" + f;
    JoinSnoc([".."], f, '/');
    assert [".."] + [f] == ["..", f];
    assert q == Join(["..", f], '/');
    SplitJoin(["..", f], '/');
    assert QueryParts(Some(q)) == ["..", f];
    assert !UsesPlaceholder(Some(q));
    var base := cwd + ["uploads"];
    assert PlainSegment("uploads");
    NormalizeAppend([], base, ["..", f]);
    NormalizeNoParent([], base);
    assert Normalize([], base) == base;
    assert Step(base, "..") == cwd;
    assert Normalize(base, ["..", f]) == Normalize(cwd, [f]) == cwd + [f];
    assert cwd + ["uploads"] + ["..", f] == base + ["..", f];
    assert |cwd + [f]| != |cwd + ["uploads", f]|;
  }

  /** The evidently intended resolution: a query with a ".." segment names
      no file. */
  function ResolveFixed(cwd: Path, q: Option<string>): (r: Option<Path>)
    ensures r.None? <==> !UsesPlaceholder(q) && ".." in QueryParts(q)
    ensures r.Some? && !UsesPlaceholder(q) ==> r.value == Resolve(cwd, q)
  {
    if UsesPlaceholder(q) then Some(Placeholder(cwd))
    else if ".." in QueryParts(q) then None
    else Some(Resolve(cwd, q))
  }

  /** With the corrected resolution every file read is the placeholder or
      lies under `<cwd>/uploads`. */
  lemma ResolveFixedConfined(cwd: Path, q: Option<string>)
    requires forall i :: 0 <= i < |cwd| ==> PlainSegment(cwd[i])
    requires ResolveFixed(cwd, q).Some?
    ensures var p := ResolveFixed(cwd, q).value;
            p == Placeholder(cwd) ||
            (|p| > |cwd| + 1 && p[..|cwd| + 1] == cwd + ["uploads"]) ||
            p == cwd + ["uploads"]
  {
    if !UsesPlaceholder(q) {
      ResolveUnderUploads(cwd, q);
      var p := ResolveFixed(cwd, q).value;
      var tail := PlainSegments(QueryParts(q));
      assert p == (cwd + ["uploads"]) + tail;
      if |tail| > 0 {
        assert p[..|cwd| + 1] == cwd + ["uploads"];
      }
    }
  }

  // ---------------------------------------------------------------------
  // extension and MIME type

  /** Position of the last occurrence of `c` in `s`. */
  function LastIndex(s: string, c: char): (k: Option<nat>)
    ensures k.None? <==> forall i :: 0 <= i < |s| ==> s[i] != c
    ensures k.Some? ==> k.value < |s| && s[k.value] == c &&
                        forall i :: k.value < i < |s| ==> s[i] != c
  {
    if |s| == 0 then None
    else if s[|s| - 1] == c then Some(|s| - 1)
    else LastIndex(s[..|s| - 1], c)
  }

  /** Node's `path.extname` of a file name: from the last '.' on, except
      that a name without '.', a name whose only leading '.' is the last one,
      and the name ".." have no extension. */
  function ExtName(base: string): (e: string)
    ensures e == "" || (e[0] == '.' && NoSep(e[1..], '.'))
  {
    match LastIndex(base, '.')
    case None => ""
    case Some(k) => if k == 0 || base == ".." then "" else base[k..]
  }

  /** `path.extname(filePath).slice(1)` of a path. */
  function FileType(p: Path): string
  {
    if |p| == 0 then "" else
      var e := ExtName(p[|p| - 1]);
      if |e| == 0 then "" else e[1..]
  }

  const OctetStream: string := "application/octet-stream"

  /** The Content-Type chosen from the extension. */
  function Mime(fileType: string): (m: string)
    ensures m == "image/jpeg" <==> fileType == "jpg" || fileType == "jpeg"
    ensures m == "image/svg+xml" <==> fileType == "svg"
    ensures m == OctetStream <==> fileType != "jpg" && fileType != "jpeg" && fileType != "svg"
  {
    if fileType == "jpg" || fileType == "jpeg" then "image/jpeg"
    else if fileType == "svg" then "image/svg+xml"
    else OctetStream
  }

  /** A file named `stem.ext`, with no '.' in `ext` and a stem that does
      not start with '.', has file type `ext`. */
  lemma FileTypeOfName(dir: Path, stem: string, ext: string)
    requires |stem| > 0 && stem[0] != '.' && NoSep(ext, '.')
    ensures FileType(dir + [stem + "." + ext]) == ext
  {
    var base := stem + "." + ext;
    assert base[|stem|] == '.';
    assert forall i :: |stem| < i < |base| ==> base[i] == ext[i - |stem| - 1];
    var k := LastIndex(base, '.');
    assert k.value == |stem|;
    assert base[|stem|..][1..] == ext;
  }

  /** PNG pictures are sent as raw bytes. */
  lemma MimeOfPng(dir: Path)
    ensures Mime(FileType(dir + ["photo.png"])) == OctetStream
  {
    assert "photo.png" == "photo" + "." + "png";
    FileTypeOfName(dir, "photo", "png");
    assert Mime("png") == OctetStream;
  }

  /** The extension is compared case-sensitively: an upper-case JPG name is
      sent as raw bytes too. */
  lemma MimeOfUpperCaseJpg(dir: Path)
    ensures Mime(FileType(dir + ["photo.JPG"])) == OctetStream
  {
    assert "photo.JPG" == "photo" + "." + "JPG";
    FileTypeOfName(dir, "photo", "JPG");
    assert Mime("JPG") == OctetStream;
  }

  /** A lower-case jpg extension gives a JPEG type. */
  lemma MimeOfJpeg(dir: Path)
    ensures Mime(FileType(dir + ["photo.jpg"])) == "image/jpeg"
  {
    assert "photo.jpg" == "photo" + "." + "jpg";
    FileTypeOfName(dir, "photo", "jpg");
  }

  /** The placeholder is sent as SVG. */
  lemma PlaceholderIsSvg(cwd: Path)
    ensures Mime(FileType(Placeholder(cwd))) == "image/svg+xml"
  {
    FileTypeOfName(cwd + ["public", "svgs"], "placeholder", "svg");
    assert "placeholder.svg" == "placeholder" + "." + "svg";
    assert Placeholder(cwd) == (cwd + ["public", "svgs"]) + ["placeholder" + "." + "svg"];
  }

  /** A name whose only '.' is its first character has no file type. */
  lemma FileTypeOfDotFile(dir: Path, name: string)
    requires |name| > 0 && name[0] == '.' && NoSep(name[1..], '.')
    ensures FileType(dir + [name]) == ""
  {
    assert forall j :: 0 < j < |name| ==> name[j] == name[1..][j - 1];
  }

  /** A hidden file such as ".bashrc" has no file type. */
  lemma FileTypeOfBashrc(dir: Path)
    ensures FileType(dir + [".bashrc"]) == ""
  {
    assert ".bashrc"[1..] == "bashrc";
    FileTypeOfDotFile(dir, ".bashrc");
  }

  /** Only the last extension counts: "a.tar.gz" has file type "gz". */
  lemma FileTypeOfTarGz(dir: Path)
    ensures FileType(dir + ["a.tar.gz"]) == "gz"
  {
    assert "a.tar.gz" == "a.tar" + "." + "gz";
    FileTypeOfName(dir, "a.tar", "gz");
  }

  // ---------------------------------------------------------------------
  // the response

  datatype Response = File(path: Path, contentType: string) | NotFound

  /** The route: a missing file gives 404, otherwise the file with the MIME
      type of its extension. */
  function Serve(cwd: Path, q: Option<string>, exists_: Path -> bool): (r: Response)
    ensures !exists_(Resolve(cwd, q)) <==> r == NotFound
    ensures r.File? ==> r.path == Resolve(cwd, q) && r.contentType == Mime(FileType(r.path))
  {
    var p := Resolve(cwd, q);
    if exists_(p) then File(p, Mime(FileType(p))) else NotFound
  }

  /** A picture stored by the upload service is asked for by its category
      and file name and is looked up at `<cwd>/uploads/<category>/<file>`,
      which is not where the upload wrote it (`<cwd>/public/uploads/...`):
      the two directories differ. */
  lemma UploadedPictureLookup(cwd: Path, category: string, fileName: string)
    requires forall i :: 0 <= i < |cwd| ==> PlainSegment(cwd[i])
    requires PlainSegment(category) && PlainSegment(fileName)
    requires NoSep(category, '/') && NoSep(fileName, '/')
    ensures var q := Some(Uploads.ReadQuery(Uploads.PublicPath(category, fileName)));
            && Resolve(cwd, q) == cwd + ["uploads", category, fileName]
            && Resolve(cwd, q) != cwd + ["public", "uploads", category, fileName]
  {
    Uploads.ReadQueryOfPublicPath(category, fileName);
    var s := category + "/" + fileName;
    JoinSnoc([category], fileName, '/');
    assert [category] + [fileName] == [category, fileName];
    SplitJoin([category, fileName], '/');
    assert QueryParts(Some(s)) == [category, fileName];
    NormalizeNoParent([], cwd + ["uploads"] + [category, fileName]);
    assert cwd + ["uploads"] + [category, fileName] == cwd + ["uploads", category, fileName];
  }
}
