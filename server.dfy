/**
 * The decision logic of the HTTP handlers: validating the add-item form,
 * naming an image by its content, guarding image paths against directory
 * traversal, storing an image, choosing the file GET /images serves, and
 * looking an item up for GET /items/{item_id}.
 */
module Server {
  import opened Wrappers
  import opened Hex
  import opened FilePath
  import opened Strconv
  import opened OsFiles
  import opened Infra

  // ---------------------------------------------------------------------
  // parseAddItemRequest

  /** The fields of POST /items. The image field is never filled in by the parser. */
  datatype AddItemRequest = AddItemRequest(name: string, category: string, image: seq<byte>)

  /** r.FormValue(key): the field's value, or "" when the form does not carry it. */
  function FormValue(form: map<string, string>, key: string): string
  {
    if key in form then form[key] else ""
  }

  /** Reads name and category from the form and rejects an empty one, name first. */
  function ParseAddItemRequest(form: map<string, string>): (r: Result<AddItemRequest, string>)
    ensures r.Err? <==> FormValue(form, "name") == "" || FormValue(form, "category") == ""
    ensures r.Err? && FormValue(form, "name") == "" ==> r.error == "name is required"
    ensures r.Err? && FormValue(form, "name") != "" ==> r.error == "category is required"
    ensures r.Ok? ==> r.value.name == FormValue(form, "name") && r.value.category == FormValue(form, "category")
    ensures r.Ok? ==> r.value.image == []
  {
    var req := AddItemRequest(FormValue(form, "name"), FormValue(form, "category"), []);
    if req.name == "" then Err("name is required")
    else if req.category == "" then Err("category is required")
    else Ok(req)
  }

  /** Only the name and category fields decide the outcome; every other field is ignored. */
  lemma ParseIgnoresOtherFields(f: map<string, string>, g: map<string, string>)
    requires FormValue(f, "name") == FormValue(g, "name")
    requires FormValue(f, "category") == FormValue(g, "category")
    ensures ParseAddItemRequest(f) == ParseAddItemRequest(g)
  {
  }

  /** The two forms the handler's own test feeds the parser. */
  lemma ParseAddItemRequestCases()
    ensures ParseAddItemRequest(map["name" := "jacket", "category" := "fashion"])
              == Ok(AddItemRequest("jacket", "fashion", []))
    ensures ParseAddItemRequest(map[]) == Err("name is required")
    ensures ParseAddItemRequest(map["name" := "jacket"]) == Err("category is required")
  {
  }

  // ---------------------------------------------------------------------
  // Content names

  /** A SHA-256 digest: 32 bytes. */
  type Digest = d: seq<byte> | |d| == 32 witness seq(32, _ => 0)

  /** The file-name extension storeImage gives every image. */
  const JpgSuffix: string := ".jpg"

  /** hex.EncodeToString(sha256.Sum256(image)) + ".jpg"; SHA-256 itself is the parameter sum256. */
  function ImageFileName(sum256: seq<byte> -> Digest, image: seq<byte>): (name: string)
    ensures |name| == 68
    ensures HasSuffix(name, JpgSuffix)
    ensures IsLowerHex(name[..64])
  {
    var hashHex := EncodeToString(sum256(image));
    assert (hashHex + JpgSuffix)[..64] == hashHex;
    hashHex + JpgSuffix
  }

  /** Two images get the same name exactly when their digests agree. */
  lemma ImageFileNameByContent(sum256: seq<byte> -> Digest, a: seq<byte>, b: seq<byte>)
    ensures ImageFileName(sum256, a) == ImageFileName(sum256, b) <==> sum256(a) == sum256(b)
  {
    var ha := EncodeToString(sum256(a));
    var hb := EncodeToString(sum256(b));
    if ImageFileName(sum256, a) == ImageFileName(sum256, b) {
      assert ha == ImageFileName(sum256, a)[..64];
      assert hb == ImageFileName(sum256, b)[..64];
      EncodeInjective(sum256(a), sum256(b));
    }
  }

  /** SHA-256 of the empty message (FIPS 180-4), in two halves of four-byte words. */
  const EmptyDigestHead: seq<byte> :=
    [0xe3, 0xb0, 0xc4, 0x42] + [0x98, 0xfc, 0x1c, 0x14] + [0x9a, 0xfb, 0xf4, 0xc8] + [0x99, 0x6f, 0xb9, 0x24]
  const EmptyDigestTail: seq<byte> :=
    [0x27, 0xae, 0x41, 0xe4] + [0x64, 0x9b, 0x93, 0x4c] + [0xa4, 0x95, 0x99, 0x1b] + [0x78, 0x52, 0xb8, 0x55]
  const EmptyDigest: Digest := EmptyDigestHead + EmptyDigestTail

  /** e3b0c44298fc1c149afbf4c8996fb92427ae41e4649b934ca495991b7852b855.jpg, in groups of eight digits. */
  const EmptyImageFileName: string :=
    ("e3b0c442" + "98fc1c14" + "9afbf4c8" + "996fb924") +
    ("27ae41e4" + "649b934c" + "a495991b" + "7852b855") + JpgSuffix

  lemma EmptyDigestHeadHex()
    ensures EncodeToString(EmptyDigestHead) == "e3b0c442" + "98fc1c14" + "9afbf4c8" + "996fb924"
  {
    var c0: seq<byte> := [0xe3, 0xb0, 0xc4, 0x42];
    var c1: seq<byte> := [0x98, 0xfc, 0x1c, 0x14];
    var c2: seq<byte> := [0x9a, 0xfb, 0xf4, 0xc8];
    var c3: seq<byte> := [0x99, 0x6f, 0xb9, 0x24];
    EncodeWord(0xe3, 0xb0, 0xc4, 0x42);
    assert EncodeToString(c0) == "e3b0c442";
    EncodeWord(0x98, 0xfc, 0x1c, 0x14);
    assert EncodeToString(c1) == "98fc1c14";
    EncodeWord(0x9a, 0xfb, 0xf4, 0xc8);
    assert EncodeToString(c2) == "9afbf4c8";
    EncodeWord(0x99, 0x6f, 0xb9, 0x24);
    assert EncodeToString(c3) == "996fb924";
    EncodeConcat(c0, c1);
    EncodeConcat(c0 + c1, c2);
    EncodeConcat(c0 + c1 + c2, c3);
  }

  lemma EmptyDigestTailHex()
    ensures EncodeToString(EmptyDigestTail) == "27ae41e4" + "649b934c" + "a495991b" + "7852b855"
  {
    var c0: seq<byte> := [0x27, 0xae, 0x41, 0xe4];
    var c1: seq<byte> := [0x64, 0x9b, 0x93, 0x4c];
    var c2: seq<byte> := [0xa4, 0x95, 0x99, 0x1b];
    var c3: seq<byte> := [0x78, 0x52, 0xb8, 0x55];
    EncodeWord(0x27, 0xae, 0x41, 0xe4);
    assert EncodeToString(c0) == "27ae41e4";
    EncodeWord(0x64, 0x9b, 0x93, 0x4c);
    assert EncodeToString(c1) == "649b934c";
    EncodeWord(0xa4, 0x95, 0x99, 0x1b);
    assert EncodeToString(c2) == "a495991b";
    EncodeWord(0x78, 0x52, 0xb8, 0x55);
    assert EncodeToString(c3) == "7852b855";
    EncodeConcat(c0, c1);
    EncodeConcat(c0 + c1, c2);
    EncodeConcat(c0 + c1 + c2, c3);
  }

  /** An empty upload gets the name the add-item test expects for it. */
  lemma EmptyImageName(sum256: seq<byte> -> Digest)
    requires sum256([]) == EmptyDigest
    ensures ImageFileName(sum256, []) == EmptyImageFileName
  {
    EmptyDigestHeadHex();
    EmptyDigestTailHex();
    EncodeConcat(EmptyDigestHead, EmptyDigestTail);
  }

  // ---------------------------------------------------------------------
  // buildImagePath

  /** Why buildImagePath refused a name; each carries the joined path it reports. */
  datatype PathError = Traversal(path: string) | NotJpeg(path: string)

  /**
   * The outcome of buildImagePath: the joined path with no error (Found), the
   * joined path with errImageNotFound (NotFound), or a refusal (Invalid).
   */
  datatype ImagePath = Found(path: string) | NotFound(path: string) | Invalid(reason: PathError)

  /** The text of the error a refusal carries. */
  function PathErrorMessage(e: PathError): string
  {
    match e
    case Traversal(p) => "invalid image path: " + p
    case NotJpeg(p) => "image path does not end with .jpg or .jpeg: " + p
  }

  predicate IsJpegPath(p: string)
  {
    HasSuffix(p, ".jpg") || HasSuffix(p, ".jpeg")
  }

  /**
   * Joins the cleaned name onto the image directory, refuses a result whose
   * path relative to the directory starts with "..", then one without a
   * .jpg/.jpeg suffix, then reports whether the file exists.
   */
  function BuildImagePath(fs: FileSystem, dir: string, name: string): (r: ImagePath)
    reads fs
    ensures !r.Invalid? ==> r.path == Join(dir, Clean(name)) && IsJpegPath(r.path)
    ensures r.Found? <==> !r.Invalid? && fs.Stat(r.path) == Exists
    ensures r.Invalid? && r.reason.NotJpeg? ==> !IsJpegPath(Join(dir, Clean(name)))
  {
    var imgPath := Join(dir, Clean(name));
    var rel := Rel(dir, imgPath);
    if rel.Err? || HasPrefix(rel.value, "..") then Invalid(Traversal(imgPath))
    else if !HasSuffix(imgPath, ".jpg") && !HasSuffix(imgPath, ".jpeg") then Invalid(NotJpeg(imgPath))
    else if fs.Stat(imgPath) != Exists then NotFound(imgPath)
    else Found(imgPath)
  }

  /**
   * The traversal guard exactly: a name is refused as a traversal if and only
   * if its joined path leaves the directory or reaches, right under it, an
   * element that starts with "..". Every path handed back lies inside the directory.
   */
  lemma BuildImagePathConfined(fs: FileSystem, dir: string, name: string)
    ensures var p := Join(dir, Clean(name));
            BuildImagePath(fs, dir, name) == Invalid(Traversal(p)) <==> !(Within(dir, p) && NoDotDotChild(dir, p))
    ensures !BuildImagePath(fs, dir, name).Invalid? ==> Within(dir, BuildImagePath(fs, dir, name).path)
  {
    RelWithoutDotDot(dir, Join(dir, Clean(name)));
  }

  /** The elements of a relative path written out from its pieces. */
  lemma RelativeElements(p: string, parts: seq<string>)
    requires |parts| >= 1 && p == JoinParts(parts)
    requires forall i :: 0 <= i < |parts| ==> Separator !in parts[i]
    requires parts[0] != ""
    ensures Elements(p) == Walk(false, [], parts)
  {
    SplitJoin(parts);
    JoinPartsFirst(parts);
  }

  lemma UpElements(name: string)
    requires name == "../../etc/passwd"
    ensures Elements(name) == ["..", "..", "etc", "passwd"]
  {
    assert name == JoinParts(["..", "..", "etc", "passwd"]);
    RelativeElements(name, ["..", "..", "etc", "passwd"]);
  }

  lemma SubdirectoryElements(name: string)
    requires name == "x/../../a.jpg"
    ensures Elements(name) == ["..", "a.jpg"]
  {
    assert name == JoinParts(["x", "..", "..", "a.jpg"]);
    RelativeElements(name, ["x", "..", "..", "a.jpg"]);
  }

  /** The name "../../etc/passwd" climbs out of the image directory "images". */
  lemma TraversalUp(fs: FileSystem, dir: string, name: string)
    requires dir == "images" && name == "../../etc/passwd"
    ensures BuildImagePath(fs, dir, name) == Invalid(Traversal("../etc/passwd"))
  {
    assert JoinParts(["..", "etc", "passwd"]) == "../etc/passwd";
    assert dir[..2][0] == 'i' && Separator !in dir;
    PlainElements(dir);
    UpElements(name);
    JoinCleanElements(dir, name);
    assert Walk(false, [dir], ["..", "..", "etc", "passwd"]) == ["..", "etc", "passwd"];
    assert Join(dir, Clean(name)) == JoinParts(["..", "etc", "passwd"]);
    BuildImagePathConfined(fs, dir, name);
  }

  /** The name "x/../../a.jpg" climbs out of "images" through a subdirectory it first enters. */
  lemma TraversalThroughSubdirectory(fs: FileSystem, dir: string, name: string)
    requires dir == "images" && name == "x/../../a.jpg"
    ensures BuildImagePath(fs, dir, name) == Invalid(Traversal("a.jpg"))
  {
    assert JoinParts(["a.jpg"]) == "a.jpg";
    assert dir[..2][0] == 'i' && Separator !in dir;
    PlainElements(dir);
    SubdirectoryElements(name);
    JoinCleanElements(dir, name);
    assert Walk(false, [dir], ["..", "a.jpg"]) == ["a.jpg"];
    assert Join(dir, Clean(name)) == JoinParts(["a.jpg"]);
    BuildImagePathConfined(fs, dir, name);
  }

  /**
   * A single path element that Clean leaves alone and the guard accepts:
   * not empty, not ".", no separator, no leading "..".
   */
  predicate PlainName(n: string)
  {
    n != "" && n != "." && Separator !in n && !HasPrefix(n, "..")
  }

  /** A plain name is its own only element, and Clean leaves it alone. */
  lemma PlainElements(n: string)
    requires PlainName(n)
    ensures Elements(n) == [n] && Clean(n) == n
    ensures !IsRooted(n)
  {
    SplitWithoutSeparator(n);
    assert n != "..";
    assert Step(false, [], n) == [n];
    assert Walk(false, [], [n]) == Walk(false, [n], []);
  }

  lemma SuffixOfSuffix(s: string, t: string, u: string)
    requires HasSuffix(s, t) && HasSuffix(t, u)
    ensures HasSuffix(s, u)
  {
    assert s[|s| - |u|..] == s[|s| - |t|..][|t| - |u|..];
  }

  /** Joining a plain name onto a directory appends exactly that element. */
  lemma JoinPlainName(dir: string, n: string)
    requires PlainName(n)
    ensures Clean(n) == n
    ensures Elements(Join(dir, n)) == Elements(dir) + [n]
    ensures IsRooted(Join(dir, n)) == IsRooted(dir)
    ensures HasSuffix(Join(dir, n), n)
  {
    PlainElements(n);
    JoinCleanElements(dir, n);
    var p := Join(dir, n);
    var e := Elements(dir) + [n];
    ElementsAreClean(dir);
    if dir == "" {
      assert p == n;
    } else {
      CleanElements(dir + [Separator] + n);
      JoinPartsLast(e);
      if IsRooted(dir) {
        assert p == [Separator] + JoinParts(e);
        SuffixOfSuffix(p, JoinParts(e), n);
      }
    }
  }

  /**
   * A plain .jpg name passes both guards wherever the directory is: the result
   * is the joined path, found or not found as os.Stat says.
   */
  lemma PlainJpegResolves(fs: FileSystem, dir: string, n: string)
    requires PlainName(n) && HasSuffix(n, JpgSuffix)
    ensures var p := Join(dir, n);
            BuildImagePath(fs, dir, n) == if fs.Stat(p) == Exists then Found(p) else NotFound(p)
  {
    var p := Join(dir, n);
    JoinPlainName(dir, n);
    RelWithoutDotDot(dir, p);
    SuffixOfSuffix(p, n, JpgSuffix);
  }

  /** A content name is plain: hex digits, then ".jpg". */
  lemma ImageFileNameIsPlain(sum256: seq<byte> -> Digest, image: seq<byte>)
    ensures PlainName(ImageFileName(sum256, image))
  {
    var name := ImageFileName(sum256, image);
    assert name[0] == name[..64][0];
    assert name[0] != '.';
    forall i | 0 <= i < |name|
      ensures name[i] != Separator
    {
      if i < 64 {
        assert name[i] == name[..64][i];
      } else {
        assert name[i] == name[64..][i - 64];
      }
    }
  }

  /** storeImage's own name never trips a guard: it is found or not found in the directory. */
  lemma ContentNameResolves(fs: FileSystem, dir: string, sum256: seq<byte> -> Digest, image: seq<byte>)
    ensures var name := ImageFileName(sum256, image);
            var p := Join(dir, name);
            BuildImagePath(fs, dir, name) == (if fs.Stat(p) == Exists then Found(p) else NotFound(p)) &&
            Elements(p) == Elements(dir) + [name]
  {
    var name := ImageFileName(sum256, image);
    ImageFileNameIsPlain(sum256, image);
    PlainJpegResolves(fs, dir, name);
    JoinPlainName(dir, name);
  }

  // ---------------------------------------------------------------------
  // storeImage

  /** The errors storeImage can return. */
  datatype StoreError =
    | PathRejected(reason: PathError)  // buildImagePath refused the name
    | ImageNotFound                    // buildImagePath's errImageNotFound, passed on unchanged
    | StatFailed(path: string)         // "failed to check file existence"
    | WriteFailed(path: string)        // "failed to save image"

  /**
   * storeImage as written: any error of buildImagePath is returned, and that
   * includes errImageNotFound for an image not stored yet. So a name comes back
   * only when the file already exists, and os.WriteFile is never reached. The
   * method changes no state.
   */
  method StoreImage(fs: FileSystem, dir: string, sum256: seq<byte> -> Digest, image: seq<byte>)
    returns (fileName: string, err: Option<StoreError>)
    ensures var name := ImageFileName(sum256, image);
            fs.Stat(Join(dir, name)) == Exists ==> fileName == name && err.None?
    ensures var name := ImageFileName(sum256, image);
            fs.Stat(Join(dir, name)) != Exists ==> fileName == "" && err == Some(ImageNotFound)
  {
    var name := ImageFileName(sum256, image);
    ContentNameResolves(fs, dir, sum256, image);
    var built := BuildImagePath(fs, dir, name);
    match built
    case Invalid(_) =>
      assert false;
    case NotFound(_) =>
      return "", Some(ImageNotFound);
    case Found(path) =>
      // The second os.Stat sees the same directory, so it finds the file too;
      // the "failed to check file existence" branch and the write after it
      // cannot be reached.
      if fs.Stat(path) == Exists {
        return name, None;
      }
      assert false;
  }

  /**
   * storeImage as its comment describes it: only errImageNotFound lets it go
   * on; then it checks the file, and writes the image when it is absent.
   */
  method StoreImageFixed(fs: FileSystem, dir: string, sum256: seq<byte> -> Digest, image: seq<byte>)
    returns (fileName: string, err: Option<StoreError>)
    modifies fs`files
    ensures var name := ImageFileName(sum256, image);
            var path := Join(dir, name);
            match old(fs.Stat(path))
            case Exists =>
              fileName == name && err.None? && fs.files == old(fs.files)
            case OtherError =>
              fileName == "" && err == Some(StatFailed(path)) && fs.files == old(fs.files)
            case NotExist =>
              if path in fs.writeFaults then
                fileName == "" && err == Some(WriteFailed(path)) && fs.files == old(fs.files)
              else
                fileName == name && err.None? && fs.files == old(fs.files)[path := image]
    ensures err.None? ==> BuildImagePath(fs, dir, fileName) == Found(Join(dir, fileName))
  {
    var name := ImageFileName(sum256, image);
    ContentNameResolves(fs, dir, sum256, image);
    var built := BuildImagePath(fs, dir, name);
    if built.Invalid? {
      assert false;
    }
    var path := built.path;
    var st := fs.Stat(path);
    if st == Exists {
      return name, None;
    } else if st == OtherError {
      return "", Some(StatFailed(path));
    }
    var ok := fs.WriteFile(path, image);
    if !ok {
      return "", Some(WriteFailed(path));
    }
    ContentNameResolves(fs, dir, sum256, image);
    return name, None;
  }

  /** As written, storing into an empty image directory fails with errImageNotFound and stores nothing. */
  method StoreImageIntoEmptyDirectory(dir: string, sum256: seq<byte> -> Digest, image: seq<byte>)
    returns (fileName: string, err: Option<StoreError>, files: map<string, seq<byte>>)
    ensures fileName == "" && err == Some(ImageNotFound)
    ensures files == map[]
  {
    var fs := new FileSystem(map[], {}, {});
    fileName, err := StoreImage(fs, dir, sum256, image);
    files := fs.files;
  }

  /** As intended, the same call stores the image under its content name. */
  method StoreImageFixedIntoEmptyDirectory(dir: string, sum256: seq<byte> -> Digest, image: seq<byte>)
    returns (fileName: string, err: Option<StoreError>, files: map<string, seq<byte>>)
    ensures fileName == ImageFileName(sum256, image) && err.None?
    ensures files == map[Join(dir, fileName) := image]
  {
    var fs := new FileSystem(map[], {}, {});
    fileName, err := StoreImageFixed(fs, dir, sum256, image);
    files := fs.files;
  }

  // ---------------------------------------------------------------------
  // GetImage

  /** The image served when the requested one is not stored. */
  const DefaultImage: string := "default.jpg"

  /** What GET /images/{filename} answers: a file to serve, or 400 with a message. */
  datatype ImageResponse = ServeFile(path: string) | BadRequest(message: string)

  /**
   * Rejects an empty file name, then asks buildImagePath: its path when found,
   * dir/default.jpg on errImageNotFound, and 400 for every other error.
   */
  function GetImage(fs: FileSystem, dir: string, fileName: string): (r: ImageResponse)
    reads fs
    ensures r.BadRequest? <==> fileName == "" || BuildImagePath(fs, dir, fileName).Invalid?
    ensures fileName == "" ==> r == BadRequest("filename is required")
    ensures r.ServeFile? && r.path != Join(dir, DefaultImage) ==> fs.Stat(r.path) == Exists
    ensures r.ServeFile? ==>
              (BuildImagePath(fs, dir, fileName).Found? && r.path == Join(dir, Clean(fileName))) ||
              (BuildImagePath(fs, dir, fileName).NotFound? && r.path == Join(dir, DefaultImage))
  {
    if fileName == "" then BadRequest("filename is required")
    else
      match BuildImagePath(fs, dir, fileName)
      case Found(path) => ServeFile(path)
      case NotFound(_) => ServeFile(Join(dir, DefaultImage))
      case Invalid(reason) => BadRequest(PathErrorMessage(reason))
  }

  /** Whatever GetImage serves lies inside the image directory. */
  lemma GetImageConfined(fs: FileSystem, dir: string, fileName: string)
    ensures GetImage(fs, dir, fileName).ServeFile? ==> Within(dir, GetImage(fs, dir, fileName).path)
  {
    BuildImagePathConfined(fs, dir, fileName);
    DefaultImageWithin(dir);
  }

  /** The default image is a plain name, so its path lies inside the directory. */
  lemma DefaultImageWithin(dir: string)
    ensures Within(dir, Join(dir, DefaultImage))
  {
    assert DefaultImage[0] == 'd';
    assert DefaultImage[..2][0] == 'd';
    JoinPlainName(dir, DefaultImage);
    var d := Elements(dir);
    assert (d + [DefaultImage])[..|d|] == d;
  }

  /**
   * A well-formed .jpg name that os.Stat cannot find (absent, or any other
   * stat error) falls back to the default image rather than an error.
   */
  lemma GetImageFallsBack(fs: FileSystem, dir: string, name: string)
    requires PlainName(name) && HasSuffix(name, JpgSuffix)
    requires fs.Stat(Join(dir, name)) != Exists
    ensures GetImage(fs, dir, name) == ServeFile(Join(dir, DefaultImage))
  {
    PlainJpegResolves(fs, dir, name);
  }

  // ---------------------------------------------------------------------
  // GetItem

  const StatusBadRequest: int := 400
  const StatusNotFound: int := 404
  const StatusInternalServerError: int := 500

  /** What GET /items/{item_id} answers: the item as JSON, or an HTTP error with its message. */
  datatype ItemResponse = ItemOk(item: Item) | HttpError(status: int, message: string)

  /**
   * GetItem's decision as written: the Atoi error is dropped, so the parsed
   * value (0 on a syntax error, the int64 bound on a range error) is used as
   * a position in the GetAll listing.
   */
  function PositionalLookup(listing: Result<seq<Item>, DbError>, itemIDstr: string): (r: ItemResponse)
    ensures itemIDstr == "" ==> r == HttpError(StatusBadRequest, "item_id is required")
    ensures itemIDstr != "" && listing.Err? ==> r == HttpError(StatusInternalServerError, "failed to retrieve items")
    ensures r.ItemOk? <==> itemIDstr != "" && listing.Ok? && 0 <= Atoi(itemIDstr).value < |listing.value|
    ensures r.ItemOk? ==> r.item == listing.value[Atoi(itemIDstr).value]
    ensures r.HttpError? && itemIDstr != "" && listing.Ok? ==> r == HttpError(StatusNotFound, "item not found")
  {
    var itemID := Atoi(itemIDstr).value;
    if itemIDstr == "" then HttpError(StatusBadRequest, "item_id is required")
    else if listing.Err? then HttpError(StatusInternalServerError, "failed to retrieve items")
    else if itemID < 0 || itemID >= |listing.value| then HttpError(StatusNotFound, "item not found")
    else ItemOk(listing.value[itemID])
  }

  /** GetItem as written: parse, read every item, index the list. */
  method GetItem(repo: ItemRepository, itemIDstr: string) returns (resp: ItemResponse)
    ensures resp == PositionalLookup(repo.Listing(), itemIDstr)
  {
    var itemID := Atoi(itemIDstr).value;
    if itemIDstr == "" {
      return HttpError(StatusBadRequest, "item_id is required");
    }
    var items, err := repo.GetAll();
    if err.Some? {
      return HttpError(StatusInternalServerError, "failed to retrieve items");
    }
    if itemID < 0 || itemID >= |items| {
      return HttpError(StatusNotFound, "item not found");
    }
    return ItemOk(items[itemID]);
  }

  /**
   * A non-numeric id whose leading digits fit in 64 bits (such as "abc") is a
   * syntax error, read as 0: it answers with the first item rather than 400.
   */
  lemma NonNumericIdIsFirstItem(items: seq<Item>, itemIDstr: string)
    requires itemIDstr != "" && !IsDecimal(itemIDstr) && LeadingValue(itemIDstr) <= MaxUint64
    requires |items| > 0
    ensures PositionalLookup(Ok(items), itemIDstr) == ItemOk(items[0])
  {
    AtoiCases(itemIDstr);
  }

  /**
   * An id whose leading digits overflow 64 bits is a range error, whatever
   * follows them ("99999999999999999999x" included): the clamped value is
   * never a position, so the answer is 404. A Go slice is never longer than
   * the largest int.
   */
  lemma OverflowingIdNotFound(items: seq<Item>, itemIDstr: string)
    requires LeadingValue(itemIDstr) > MaxUint64
    requires |items| <= MaxInt
    ensures PositionalLookup(Ok(items), itemIDstr) == HttpError(StatusNotFound, "item not found")
  {
    AtoiCases(itemIDstr);
  }

  /**
   * A table filled by Insert from an empty start numbers its items 1, 2, ...:
   * the id k then answers with the item whose id is k + 1, and the last item
   * cannot be reached by its own id.
   */
  lemma PositionalLookupMissesIds(items: seq<Item>, k: int)
    requires forall i :: 0 <= i < |items| ==> items[i].id == i + 1
    requires 0 <= k < |items| <= MaxInt
    ensures PositionalLookup(Ok(items), Itoa(k)) == ItemOk(items[k])
    ensures items[k].id == k + 1
    ensures PositionalLookup(Ok(items), Itoa(|items|)) == HttpError(StatusNotFound, "item not found")
  {
    AtoiItoa(k);
    AtoiItoa(|items|);
  }

  /**
   * GetItem as intended: a malformed id is 400, the id is looked up by
   * GetByID, a missing row is 404 and any other failure 500.
   */
  function ByIdLookup(selected: Result<Item, DbError>): (r: ItemResponse)
    ensures r.ItemOk? <==> selected.Ok?
    ensures r.ItemOk? ==> r.item == selected.value
    ensures selected == Err(NoRows) ==> r == HttpError(StatusNotFound, "item not found")
  {
    match selected
    case Ok(item) => ItemOk(item)
    case Err(NoRows) => HttpError(StatusNotFound, "item not found")
    case Err(_) => HttpError(StatusInternalServerError, "failed to retrieve item")
  }

  method GetItemById(repo: ItemRepository, itemIDstr: string) returns (resp: ItemResponse)
    ensures itemIDstr == "" ==> resp == HttpError(StatusBadRequest, "item_id is required")
    ensures itemIDstr != "" && Atoi(itemIDstr).err.Some? ==> resp == HttpError(StatusBadRequest, "invalid item_id")
    ensures itemIDstr != "" && Atoi(itemIDstr).err.None? ==> resp == ByIdLookup(repo.Selected(Atoi(itemIDstr).value))
  {
    if itemIDstr == "" {
      return HttpError(StatusBadRequest, "item_id is required");
    }
    var parsed := Atoi(itemIDstr);
    if parsed.err.Some? {
      return HttpError(StatusBadRequest, "invalid item_id");
    }
    var item, err := repo.GetByID(parsed.value);
    if item.Some? {
      return ItemOk(item.value);
    }
    return ByIdLookup(Err(err.value));
  }

  /**
   * The intended lookup answers the id k with the item whose id is k, the one
   * the listing holds, and 404 when no item carries that id.
   */
  lemma ByIdLookupFindsId(rows: seq<Row>, nextId: int, items: seq<Item>, k: int)
    requires TableInvariant(rows, nextId)
    requires ScanAll(rows) == Ok(items)
    requires MinInt <= k <= MaxInt
    ensures ByIdLookup(SelectById(rows, k)).ItemOk? <==> exists i :: 0 <= i < |items| && items[i].id == k
    ensures forall i :: 0 <= i < |items| && items[i].id == k ==> ByIdLookup(SelectById(rows, k)) == ItemOk(items[i])
    ensures (forall i :: 0 <= i < |items| ==> items[i].id != k) ==>
              ByIdLookup(SelectById(rows, k)) == HttpError(StatusNotFound, "item not found")
  {
    SelectByIdAgreesWithListing(rows, k, items);
    ScanAllOk(rows);
    if forall i :: 0 <= i < |items| ==> items[i].id != k {
      assert forall i :: 0 <= i < |rows| ==> rows[i].id != k;
    }
  }
}
