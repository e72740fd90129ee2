/** The decisions the Express backend makes before and around its database
    calls: which uploaded files the upload filter lets through and under
    which name they are stored, how the bearer token is taken from the
    `Authorization` header, the guards of the login, category and upload
    routes, and what the photo delete and update routes do to the rows. Queries, password hashing and token signing are outside
    the model; their results enter as parameters. */
module Server {
  import opened Basics
  import opened Text
  import AdminFilter

  /** A route's answer: go on with a value, or an error status and message. */
  datatype Reply<T> = Ok(value: T) | Fail(status: int, message: string)

  // ---------------------------------------------------------------------
  // `path.extname` (POSIX)

  /** No character of `s` is `c`. */
  predicate Lacks(s: string, c: char) {
    forall j :: 0 <= j < |s| ==> s[j] != c
  }

  lemma LacksConcat(a: string, b: string, c: char)
    requires Lacks(a, c) && Lacks(b, c)
    ensures Lacks(a + b, c)
  {
    forall j | 0 <= j < |a + b| ensures (a + b)[j] != c {
      if j < |a| { assert (a + b)[j] == a[j]; } else { assert (a + b)[j] == b[j - |a|]; }
    }
  }

  /** What `extname` can return: nothing, or a dot followed by text with no
      further dot; never a separator. */
  predicate ExtensionShaped(e: string) {
    Lacks(e, '/') && (e == [] || (e[0] == '.' && forall j :: 0 < j < |e| ==> e[j] != '.'))
  }

  predicate EndsWith(s: string, suffix: string) {
    |suffix| <= |s| && s[|s| - |suffix|..] == suffix
  }

  function StripTrailingSlashes(p: string): (r: string)
    ensures |r| <= |p| && r == p[..|r|]
    ensures r == [] || r[|r| - 1] != '/'
    ensures forall i :: |r| <= i < |p| ==> p[i] == '/'
    decreases |p|
  {
    if |p| > 0 && p[|p| - 1] == '/' then StripTrailingSlashes(p[..|p| - 1]) else p
  }

  /** `s.lastIndexOf(c)`: the last position holding `c`, or -1. */
  function LastIndexOf(s: string, c: char): (i: int)
    ensures -1 <= i < |s|
    ensures 0 <= i ==> s[i] == c
    ensures forall j :: i < j < |s| ==> s[j] != c
    decreases |s|
  {
    if |s| == 0 then -1
    else if s[|s| - 1] == c then |s| - 1
    else
      var init := s[..|s| - 1];
      var i := LastIndexOf(init, c);
      assert forall j :: i < j < |s| - 1 ==> s[j] == init[j];
      i
  }

  /** The text after position `k`, when `c` does not occur there. */
  lemma TailLacks(t: string, k: int, c: char)
    requires -1 <= k < |t| && forall j :: k < j < |t| ==> t[j] != c
    ensures Lacks(t[k + 1..], c)
  {
    var u := t[k + 1..];
    forall j | 0 <= j < |u| ensures u[j] != c {
      assert u[j] == t[k + 1 + j];
    }
  }

  lemma EndsWithTail(t: string, b: string, d: nat)
    requires EndsWith(t, b) && d <= |b|
    ensures EndsWith(t, b[d..])
  {
    assert t[|t| - |b[d..]|..] == t[|t| - |b|..][d..];
  }

  /** The last path segment, trailing separators ignored. */
  function Basename(p: string): (b: string)
    ensures Lacks(b, '/')
    ensures EndsWith(StripTrailingSlashes(p), b)
  {
    var t := StripTrailingSlashes(p);
    var k := LastIndexOf(t, '/');
    TailLacks(t, k, '/');
    t[k + 1..]
  }

  /** From the last dot of a segment to its end is shaped like an extension. */
  lemma DotTailShaped(b: string, d: nat)
    requires Lacks(b, '/') && d < |b| && b[d] == '.'
    requires forall j :: d < j < |b| ==> b[j] != '.'
    ensures ExtensionShaped(b[d..])
  {
    TailLacks(b, d - 1, '/');
    var e := b[d..];
    forall j | 0 < j < |e| ensures e[j] != '.' {
      assert e[j] == b[d + j];
    }
  }

  /** `path.extname(p)`: from the last dot of the last segment to its end;
      empty when the segment has no dot, when its only dot leads it (a
      dot-file) and for the segment `..`. */
  function Extname(p: string): (e: string)
    ensures ExtensionShaped(e)
    ensures EndsWith(StripTrailingSlashes(p), e)
  {
    var b := Basename(p);
    var d := LastIndexOf(b, '.');
    if d <= 0 || b == ".." then ""
    else
      DotTailShaped(b, d);
      EndsWithTail(StripTrailingSlashes(p), b, d);
      b[d..]
  }

  /** A path without separators is its own last segment. */
  lemma NoSlashBasename(p: string)
    requires Lacks(p, '/')
    ensures Basename(p) == p
  {
    assert StripTrailingSlashes(p) == p;
    assert LastIndexOf(p, '/') == -1;
  }

  lemma LastIndexOfAt(s: string, c: char, k: int)
    requires -1 <= k < |s| && (k >= 0 ==> s[k] == c)
    requires forall j :: k < j < |s| ==> s[j] != c
    ensures LastIndexOf(s, c) == k
  {
  }

  /** The extension of a path with no separator, read off directly. */
  lemma ExtnameOfSegment(p: string)
    requires Lacks(p, '/')
    ensures var d := LastIndexOf(p, '.');
            Extname(p) == if d <= 0 || p == ".." then "" else p[d..]
  {
    NoSlashBasename(p);
  }

  /** Appending an extension to a name with no dot and no separator gives a
      path whose extension is exactly the appended one. */
  lemma ExtnameOfSuffixed(name: string, e: string)
    requires name != [] && Lacks(name, '.') && Lacks(name, '/')
    requires ExtensionShaped(e)
    ensures Extname(name + e) == e
  {
    LacksConcat(name, e, '/');
    ExtnameOfSegment(name + e);
    if e == [] {
      assert name + e == name;
      LastIndexOfAt(name, '.', -1);
    } else {
      LastDotOfSuffixed(name, e);
    }
  }

  lemma LastDotOfSuffixed(name: string, e: string)
    requires name != [] && Lacks(name, '.')
    requires ExtensionShaped(e) && e != []
    ensures LastIndexOf(name + e, '.') == |name|
    ensures (name + e)[0] != '.' && (name + e)[|name|..] == e
  {
    var p := name + e;
    assert forall j :: |name| < j < |p| ==> p[j] == e[j - |name|];
    LastIndexOfAt(p, '.', |name|);
    assert p[0] == name[0];
  }

  // ---------------------------------------------------------------------
  // Stored file name and the upload filter

  /** Decimal digits contain neither a dot nor a separator. */
  lemma DigitsLackPunctuation(s: string)
    requires AllDigits(s)
    ensures Lacks(s, '.') && Lacks(s, '/')
  {
  }

  /** A stem of two numbers joined by a dash has no dot and no separator. */
  lemma StemLacksPunctuation(now: nat, random: nat)
    ensures var stem := DecimalString(now) + "-" + DecimalString(random);
            stem != [] && Lacks(stem, '.') && Lacks(stem, '/')
  {
    var head := DecimalString(now) + "-";
    DigitsLackPunctuation(DecimalString(now));
    DigitsLackPunctuation(DecimalString(random));
    LacksConcat(DecimalString(now), "-", '.');
    LacksConcat(DecimalString(now), "-", '/');
    LacksConcat(head, DecimalString(random), '.');
    LacksConcat(head, DecimalString(random), '/');
  }

  /** The name multer stores an upload under: the time in milliseconds, a
      dash, a random number (`Math.round(Math.random() * 1E9)`) and the
      original name's extension. */
  function StoredFilename(now: nat, random: nat, originalName: string): (r: string)
    ensures Extname(r) == Extname(originalName)
  {
    var head := DecimalString(now) + "-";
    var stem := head + DecimalString(random);
    var ext := Extname(originalName);
    StemLacksPunctuation(now, random);
    ExtnameOfSuffixed(stem, ext);
    stem + ext
  }

  lemma PrefixByIndex(a: string, s: string)
    requires |a| <= |s| && forall i :: 0 <= i < |a| ==> s[i] == a[i]
    ensures IsPrefix(a, s)
  {
  }

  /** The stored name starts with the upload time and a dash. */
  lemma StoredFilenameStartsWithTime(now: nat, random: nat, originalName: string)
    ensures IsPrefix(DecimalString(now) + "-", StoredFilename(now, random, originalName))
  {
    var head := DecimalString(now) + "-";
    var stem := head + DecimalString(random);
    var r := stem + Extname(originalName);
    assert forall i :: 0 <= i < |head| ==> r[i] == stem[i] == head[i];
    PrefixByIndex(head, r);
  }

  /** `/jpeg|jpg|png|gif|webp/.test(s)`: the pattern is not anchored, so any
      occurrence counts. */
  predicate AllowedType(s: string) {
    Contains(s, "jpeg") || Contains(s, "jpg") || Contains(s, "png") ||
    Contains(s, "gif") || Contains(s, "webp")
  }

  datatype FilterVerdict = Accepted | Refused(message: string)

  const NotImageError := "Only image files are allowed!"

  /** The upload's `fileFilter`: the lower-cased extension and the mimetype,
      as sent, must both mention an allowed type. */
  function FileFilter(originalName: string, mimetype: string): (r: FilterVerdict)
    ensures r.Accepted? ==> AllowedType(mimetype) && |Extname(originalName)| >= 4
    ensures r.Refused? ==> r.message == NotImageError
  {
    if AllowedType(Lower(Extname(originalName))) && AllowedType(mimetype) then
      AcceptedNameHasExtension(originalName);
      Accepted
    else Refused(NotImageError)
  }

  /** Every character of a found needle occurs in the haystack. */
  lemma {:induction false} ContainsChars(hay: string, needle: string)
    requires Contains(hay, needle)
    ensures forall k :: 0 <= k < |needle| ==> needle[k] in hay
    decreases |hay|
  {
    if IsPrefix(needle, hay) {
      forall k | 0 <= k < |needle| ensures needle[k] in hay {
        assert needle[k] == hay[k];
      }
    } else {
      ContainsChars(hay[1..], needle);
      forall k | 0 <= k < |needle| ensures needle[k] in hay {
        var j :| 0 <= j < |hay[1..]| && hay[1..][j] == needle[k];
        assert hay[j + 1] == needle[k];
      }
    }
  }

  /** A needle that does not start with a dot, found in text that does,
      lies after that dot. */
  lemma NeedleAfterDot(l: string, needle: string)
    requires (l == [] || l[0] == '.') && |needle| > 0 && needle[0] != '.'
    requires Contains(l, needle)
    ensures |l| >= |needle| + 1
  {
    assert !IsPrefix(needle, l) by { assert needle[0] != l[0]; }
  }

  lemma AcceptedNameHasExtension(originalName: string)
    requires AllowedType(Lower(Extname(originalName)))
    ensures |Extname(originalName)| >= 4
  {
    var e := Extname(originalName);
    LowerKeepsExtensionShape(e);
    var l := Lower(e);
    if Contains(l, "jpeg") { NeedleAfterDot(l, "jpeg"); }
    else if Contains(l, "jpg") { NeedleAfterDot(l, "jpg"); }
    else if Contains(l, "png") { NeedleAfterDot(l, "png"); }
    else if Contains(l, "gif") { NeedleAfterDot(l, "gif"); }
    else { NeedleAfterDot(l, "webp"); }
  }

  /** A needle with a character the haystack lacks is not found. */
  lemma MissingCharNotContained(hay: string, needle: string, k: nat)
    requires k < |needle| && needle[k] !in hay
    ensures !Contains(hay, needle)
  {
    if Contains(hay, needle) {
      ContainsChars(hay, needle);
    }
  }

  /** A stored upload passes the filter exactly as its original name did:
      storing keeps the extension. */
  lemma StoredNameKeepsVerdict(now: nat, random: nat, originalName: string, mimetype: string)
    ensures FileFilter(StoredFilename(now, random, originalName), mimetype) == FileFilter(originalName, mimetype)
  {
  }

  /** Lower-casing leaves dots and slashes where they were. */
  lemma LowerKeepsExtensionShape(e: string)
    requires ExtensionShaped(e)
    ensures ExtensionShaped(Lower(e))
  {
  }

  /** The extension is compared case-insensitively: a name and the same
      name with its extension lower-cased get the same verdict. */
  lemma ExtensionCaseIgnored(stem: string, ext: string, mimetype: string)
    requires stem != [] && Lacks(stem, '.') && Lacks(stem, '/')
    requires ExtensionShaped(ext)
    ensures Extname(stem + ext) == ext
    ensures FileFilter(stem + ext, mimetype) == FileFilter(stem + Lower(ext), mimetype)
  {
    ExtnameOfSuffixed(stem, ext);
    LowerKeepsExtensionShape(ext);
    ExtnameOfSuffixed(stem, Lower(ext));
    LowerIdempotent(ext);
  }

  /** The five types of the pattern, each as an extension spells it. */
  predicate ImageType(t: string) {
    t == "jpeg" || t == "jpg" || t == "png" || t == "gif" || t == "webp"
  }

  /** Text without capitals is its own lower-case form. */
  lemma LowerOfNoCapitals(s: string)
    requires forall i :: 0 <= i < |s| ==> !('A' <= s[i] <= 'Z')
    ensures Lower(s) == s
  {
    assert forall i :: 0 <= i < |s| ==> Lower(s)[i] == s[i];
  }

  /** A dot followed by lower-case letters is shaped like an extension. */
  lemma LetterExtensionShaped(t: string)
    requires forall i :: 0 <= i < |t| ==> 'a' <= t[i] <= 'z'
    ensures ExtensionShaped("." + t)
  {
    var ext := "." + t;
    forall j | 0 <= j < |ext| ensures ext[j] != '/' && (j > 0 ==> ext[j] != '.') {
      if j > 0 { assert ext[j] == t[j - 1]; }
    }
  }

  /** A dot followed by lower-case letters has no capitals. */
  lemma LetterExtensionLower(t: string)
    requires forall i :: 0 <= i < |t| ==> 'a' <= t[i] <= 'z'
    ensures Lower("." + t) == "." + t
  {
    var ext := "." + t;
    forall j | 0 <= j < |ext| ensures !('A' <= ext[j] <= 'Z') {
      if j > 0 { assert ext[j] == t[j - 1]; }
    }
    LowerOfNoCapitals(ext);
  }

  lemma ContainsAfterDot(t: string)
    ensures Contains("." + t, t)
  {
    var ext := "." + t;
    assert ext[1..1 + |t|] == t;
    ContainsAt(ext, t, 1);
  }

  /** Conversely, a plain name ending in a dot and one of the five types,
      sent with a mimetype that names one of them, is accepted. */
  lemma ImageNameAccepted(stem: string, t: string, mimetype: string)
    requires stem != [] && Lacks(stem, '.') && Lacks(stem, '/')
    requires ImageType(t) && AllowedType(mimetype)
    ensures FileFilter(stem + ("." + t), mimetype).Accepted?
  {
    assert forall i :: 0 <= i < |t| ==> 'a' <= t[i] <= 'z';
    LetterExtensionShaped(t);
    LetterExtensionLower(t);
    ContainsAfterDot(t);
    ExtnameOfSuffixed(stem, "." + t);
  }

  /** The mimetype is compared as sent: one without lower-case letters is
      refused whatever the file's name. */
  lemma CapitalMimetypeRefused(originalName: string, mimetype: string)
    requires forall i :: 0 <= i < |mimetype| ==> !('a' <= mimetype[i] <= 'z')
    ensures FileFilter(originalName, mimetype).Refused?
  {
    MissingCharNotContained(mimetype, "jpeg", 0);
    MissingCharNotContained(mimetype, "jpg", 0);
    MissingCharNotContained(mimetype, "png", 0);
    MissingCharNotContained(mimetype, "gif", 0);
    MissingCharNotContained(mimetype, "webp", 0);
  }

  // ---------------------------------------------------------------------
  // Bearer token

  /** `authHeader && authHeader.split(' ')[1]`, kept only when it is truthy:
      the second space-separated field of the header, when there is one and
      it is not empty. */
  function BearerToken(header: Option<string>): (t: Option<string>)
    ensures t.Some? ==> t.value != "" && ' ' !in t.value
    ensures t.Some? ==> header.Some? && |Split(header.value, ' ')| >= 2 && t.value == Split(header.value, ' ')[1]
  {
    if header.None? then None
    else
      var fields := Split(header.value, ' ');
      if |fields| >= 2 && fields[1] != "" then Some(fields[1]) else None
  }

  /** `Bearer <token>` (or any one-word scheme) yields the token. */
  lemma BearerRoundTrip(scheme: string, token: string)
    requires ' ' !in scheme && ' ' !in token && token != ""
    ensures BearerToken(Some(scheme + " " + token)) == Some(token)
  {
    JoinTwo(scheme, token, ' ');
    SplitJoin([scheme, token], ' ');
  }

  /** A missing header, or one without a space, yields no token. */
  lemma NoSpaceNoToken(header: Option<string>)
    requires header.Some? ==> ' ' !in header.value
    ensures BearerToken(header) == None
  {
    if header.Some? {
      assert IndexOf(header.value, ' ') == -1;
    }
  }

  /** `authenticateToken`: 401 without a token, 403 when the token does not
      verify, otherwise the request goes on. `verifies` stands for
      `jwt.verify` under the server's secret. */
  function Authenticate(header: Option<string>, verifies: string -> bool): (r: Reply<string>)
    ensures r.Ok? <==> BearerToken(header).Some? && verifies(BearerToken(header).value)
    ensures r.Ok? ==> Some(r.value) == BearerToken(header)
    ensures r.Fail? ==> (r.status == 401 <==> BearerToken(header).None?)
    ensures r.Fail? ==> r.status == 401 || r.status == 403
  {
    var t := BearerToken(header);
    if t.None? then Fail(401, "Access token required")
    else if !verifies(t.value) then Fail(403, "Invalid token")
    else Ok(t.value)
  }

  // ---------------------------------------------------------------------
  // Route guards

  predicate Truthy(o: Option<string>) {
    o.Some? && o.value != ""
  }

  datatype Credentials = Credentials(username: string, password: string)

  /** The login route's guard: both fields present and non-empty. */
  function LoginGuard(username: Option<string>, password: Option<string>): (r: Reply<Credentials>)
    ensures r.Fail? <==> username.None? || password.None? || username.value == "" || password.value == ""
    ensures r.Fail? ==> r.status == 400
    ensures r.Ok? ==> r.value == Credentials(username.value, password.value)
  {
    if !Truthy(username) || !Truthy(password) then Fail(400, "Username and password required")
    else Ok(Credentials(username.value, password.value))
  }

  /** The add-category guard: a missing or blank name is refused, otherwise
      the trimmed name is what is inserted and returned. */
  function CategoryName(name: Option<string>): (r: Reply<string>)
    ensures r.Fail? <==> name.None? || AllWhitespace(name.value)
    ensures r.Fail? ==> r.status == 400
    ensures r.Ok? ==> r.value != "" && !IsJsWhitespace(r.value[0]) && !IsJsWhitespace(r.value[|r.value| - 1])
    ensures r.Ok? ==> r.value == Trim(name.value)
  {
    if name.None? then Fail(400, "Category name is required")
    else
      TrimEmptyIffBlank(name.value);
      if name.value == "" || Trim(name.value) == "" then Fail(400, "Category name is required")
      else Ok(Trim(name.value))
  }

  /** Re-submitting an accepted name is accepted unchanged. */
  lemma CategoryNameStable(name: Option<string>)
    requires CategoryName(name).Ok?
    ensures CategoryName(Some(CategoryName(name).value)) == CategoryName(name)
  {
    TrimIdempotent(name.value);
    TrimEmptyIffBlank(CategoryName(name).value);
  }

  // ---------------------------------------------------------------------
  // Stored rows

  /** A column value as SQLite stores it. */
  datatype DbValue = DbNull | DbInt(i: int) | DbText(t: string)

  /** Text bound to a numeric or integer column: an unsigned decimal
      integer literal is stored as that integer, anything else as text. */
  function Affinity(t: string): (v: DbValue)
    ensures v.DbText? <==> t == "" || !AllDigits(t)
    ensures v.DbText? ==> v.t == t
  {
    if t != "" && AllDigits(t) then DbInt(DecimalValue(t)) else DbText(t)
  }

  /** A stored number or text as the JSON the photos route returns. */
  function ToJs(v: DbValue): AdminFilter.JsValue {
    match v
    case DbNull => AdminFilter.JNull
    case DbInt(i) => AdminFilter.JNum(i)
    case DbText(t) => AdminFilter.JText(t)
  }

  datatype CategoryRow = CategoryRow(id: int, name: string)

  datatype PhotoRow = PhotoRow(
    id: int,
    filename: string,
    originalName: string,
    fields: seq<Option<string>>,
    isBlackWhite: DbValue,
    categoryId: DbValue)

  /** `SELECT COUNT(*) FROM photos WHERE category_id = ?`. */
  function CountUsing(photos: seq<PhotoRow>, id: int): (n: nat)
    ensures n <= |photos|
    ensures n > 0 <==> exists i :: 0 <= i < |photos| && photos[i].categoryId == DbInt(id)
    decreases |photos|
  {
    if |photos| == 0 then 0
    else
      var rest := CountUsing(photos[1..], id);
      assert forall i :: 0 < i < |photos| ==> photos[i] == photos[1..][i - 1];
      (if photos[0].categoryId == DbInt(id) then 1 else 0) + rest
  }

  /** The categories with every row of the given id removed. */
  function WithoutCategory(categories: seq<CategoryRow>, id: int): (r: seq<CategoryRow>)
    ensures |r| <= |categories|
    ensures forall c :: c in r <==> c in categories && c.id != id
    decreases |categories|
  {
    if |categories| == 0 then []
    else if categories[0].id == id then WithoutCategory(categories[1..], id)
    else [categories[0]] + WithoutCategory(categories[1..], id)
  }

  /** The delete-category route: refused while any photo uses the category,
      and then nothing is deleted; otherwise the category is gone. */
  function DeleteCategory(categories: seq<CategoryRow>, photos: seq<PhotoRow>, id: int): (r: Reply<seq<CategoryRow>>)
    ensures r.Fail? <==> exists i :: 0 <= i < |photos| && photos[i].categoryId == DbInt(id)
    ensures r.Fail? ==> r.status == 400
    ensures r.Ok? ==> forall c :: c in r.value <==> c in categories && c.id != id
  {
    if CountUsing(photos, id) > 0 then Fail(400, "Cannot delete category that is being used by photos")
    else Ok(WithoutCategory(categories, id))
  }

  /** Deleting an unused category twice is deleting it once. */
  lemma {:induction false} DeleteTwiceIsOnce(categories: seq<CategoryRow>, photos: seq<PhotoRow>, id: int)
    requires DeleteCategory(categories, photos, id).Ok?
    ensures DeleteCategory(DeleteCategory(categories, photos, id).value, photos, id)
         == DeleteCategory(categories, photos, id)
  {
    WithoutCategoryIdempotent(categories, id);
  }

  lemma {:induction false} WithoutCategoryIdempotent(categories: seq<CategoryRow>, id: int)
    ensures WithoutCategory(WithoutCategory(categories, id), id) == WithoutCategory(categories, id)
    decreases |categories|
  {
    if |categories| > 0 {
      WithoutCategoryIdempotent(categories[1..], id);
      if categories[0].id != id {
        var rest := WithoutCategory(categories[1..], id);
        assert ([categories[0]] + rest)[0] == categories[0];
        assert ([categories[0]] + rest)[1..] == rest;
      }
    }
  }

  /** The body fields of the upload route; a missing field is `None`. The
      six metadata texts are kept in the order of the photos table. */
  datatype UploadBody = UploadBody(
    fields: seq<Option<string>>,
    isBlackWhite: Option<string>,
    categoryId: Option<string>)

  /** The file multer accepted: its original name and the stored name. */
  datatype UploadedFile = UploadedFile(originalName: string, filename: string)

  const NoFileError := "No image file provided"

  /** The upload route: 400 without a file; otherwise the row inserted, with
      a falsy type flag stored as 0 and a falsy category as NULL. */
  function Upload(file: Option<UploadedFile>, body: UploadBody, id: int): (r: Reply<PhotoRow>)
    ensures r.Fail? <==> file.None?
    ensures r.Fail? ==> r.status == 400 && r.message == NoFileError
    ensures r.Ok? ==> r.value.filename == file.value.filename && r.value.originalName == file.value.originalName
    ensures r.Ok? ==> r.value.fields == body.fields && r.value.id == id
    ensures r.Ok? && !Truthy(body.isBlackWhite) ==> r.value.isBlackWhite == DbInt(0)
    ensures r.Ok? && Truthy(body.isBlackWhite) ==> r.value.isBlackWhite == Affinity(body.isBlackWhite.value)
    ensures r.Ok? && !Truthy(body.categoryId) ==> r.value.categoryId == DbNull
    ensures r.Ok? && Truthy(body.categoryId) ==> r.value.categoryId == Affinity(body.categoryId.value)
  {
    if file.None? then Fail(400, NoFileError)
    else Ok(PhotoRow(id, file.value.filename, file.value.originalName, body.fields,
                     StoredFlag(body), StoredCategory(body)))
  }

  /** `is_black_white || 0` bound to the BOOLEAN column. */
  function StoredFlag(body: UploadBody): DbValue {
    if Truthy(body.isBlackWhite) then Affinity(body.isBlackWhite.value) else DbInt(0)
  }

  /** `category_id || null` bound to the INTEGER column. */
  function StoredCategory(body: UploadBody): DbValue {
    if Truthy(body.categoryId) then Affinity(body.categoryId.value) else DbNull
  }

  /** A category id sent as the select's text is stored as that number, so
      the admin panel's category filter for the id selects the photo. */
  lemma UploadedCategorySelectable(file: UploadedFile, body: UploadBody, rowId: int, category: nat,
                                   f: AdminFilter.Filters, p: AdminFilter.AdminPhoto)
    requires body.categoryId == Some(IntString(category))
    requires p.categoryId == Some(category)
    ensures Upload(Some(file), body, rowId).value.categoryId == DbInt(category)
    ensures AdminFilter.Passes(f.(category := IntString(category)), AdminFilter.Category, p)
  {
    DecimalRoundTrip(category);
    AdminFilter.CategoryFilterSelectsId(f, category, p);
  }

  /** The forms send the photo type as the text "true" or "false", which is
      stored as text; read back by the admin panel, such a photo matches
      neither setting of its type filter. */
  lemma UploadedTypeMatchesNoFilter(file: UploadedFile, body: UploadBody, rowId: int, b: bool,
                                    f: AdminFilter.Filters, p: AdminFilter.AdminPhoto)
    requires body.isBlackWhite == Some(if b then "true" else "false")
    requires p.isBlackWhite == ToJs(Upload(Some(file), body, rowId).value.isBlackWhite)
    requires f.photoType != ""
    ensures !AdminFilter.Passes(f, AdminFilter.PhotoType, p)
  {
    var t := body.isBlackWhite.value;
    assert !AllDigits(t) by { assert !IsDigit(t[0]); }
    AdminFilter.TextFlagMatchesNoType(f, p);
  }

  /** The type flag as the forms evidently mean it: the texts "true" and
      "false" they send are stored as 1 and 0, which the admin panel's type
      filter and the gallery's "Black & White" label read as booleans. Any
      other value is stored as before. */
  function StoredFlagCorrected(body: UploadBody): (v: DbValue)
    ensures body.isBlackWhite == Some("true") ==> v == DbInt(1)
    ensures body.isBlackWhite == Some("false") ==> v == DbInt(0)
    ensures body.isBlackWhite != Some("true") && body.isBlackWhite != Some("false") ==> v == StoredFlag(body)
  {
    if body.isBlackWhite == Some("true") then DbInt(1)
    else if body.isBlackWhite == Some("false") then DbInt(0)
    else StoredFlag(body)
  }

  /** With the corrected flag, a photo uploaded through either form is
      selected by the admin type filter exactly when its type was chosen. */
  lemma CorrectedTypeSelectable(b: bool, body: UploadBody, f: AdminFilter.Filters, p: AdminFilter.AdminPhoto)
    requires body.isBlackWhite == Some(if b then "true" else "false")
    requires p.isBlackWhite == ToJs(StoredFlagCorrected(body))
    requires f.photoType != ""
    ensures f.photoType == "black_white" ==> (AdminFilter.Passes(f, AdminFilter.PhotoType, p) <==> b)
    ensures f.photoType != "black_white" ==> (AdminFilter.Passes(f, AdminFilter.PhotoType, p) <==> !b)
  {
    AdminFilter.PhotoTypeOnNumericFlag(f, p, if b then 1 else 0);
  }

  // ---------------------------------------------------------------------
  // Deleting and updating a photo

  const PhotoNotFound := "Photo not found"

  /** Some stored row has the id. */
  predicate HasPhoto(photos: seq<PhotoRow>, id: int) {
    exists i :: 0 <= i < |photos| && photos[i].id == id
  }

  /** `SELECT filename FROM photos WHERE id = ?`: the first row with the id. */
  function FindPhoto(photos: seq<PhotoRow>, id: int): (r: Option<PhotoRow>)
    ensures r.None? <==> !HasPhoto(photos, id)
    ensures r.Some? ==> r.value in photos && r.value.id == id
    decreases |photos|
  {
    if |photos| == 0 then None
    else if photos[0].id == id then Some(photos[0])
    else
      assert forall i :: 0 < i < |photos| ==> photos[i] == photos[1..][i - 1];
      FindPhoto(photos[1..], id)
  }

  /** `DELETE FROM photos WHERE id = ?`. */
  function WithoutPhoto(photos: seq<PhotoRow>, id: int): (r: seq<PhotoRow>)
    ensures |r| <= |photos|
    ensures forall p :: p in r <==> p in photos && p.id != id
    decreases |photos|
  {
    if |photos| == 0 then []
    else if photos[0].id == id then WithoutPhoto(photos[1..], id)
    else [photos[0]] + WithoutPhoto(photos[1..], id)
  }

  /** A successful photo delete: the remaining rows and the stored file to
      unlink. */
  datatype Deletion = Deletion(rows: seq<PhotoRow>, unlink: string)

  /** The delete-photo route: 404 when no row has the id; otherwise the
      row's file is removed from disk and the row from the table. */
  function DeletePhoto(photos: seq<PhotoRow>, id: int): (r: Reply<Deletion>)
    ensures r.Fail? <==> !HasPhoto(photos, id)
    ensures r.Fail? ==> r.status == 404 && r.message == PhotoNotFound
    ensures r.Ok? ==> exists i :: 0 <= i < |photos| && photos[i].id == id && photos[i].filename == r.value.unlink
    ensures r.Ok? ==> forall p :: p in r.value.rows <==> p in photos && p.id != id
  {
    match FindPhoto(photos, id)
    case None => Fail(404, PhotoNotFound)
    case Some(row) => Ok(Deletion(WithoutPhoto(photos, id), row.filename))
  }

  /** Deleting a photo a second time answers 404: the first delete left no
      row with the id. */
  lemma DeletePhotoTwiceNotFound(photos: seq<PhotoRow>, id: int)
    requires DeletePhoto(photos, id).Ok?
    ensures DeletePhoto(DeletePhoto(photos, id).value.rows, id) == Fail(404, PhotoNotFound)
  {
    var rows := DeletePhoto(photos, id).value.rows;
    assert forall i :: 0 <= i < |rows| ==> rows[i] in rows;
  }

  /** The row the update route writes: the six metadata texts as sent (a
      missing one becomes NULL), the type flag and category stored as the
      upload route stores them; the id and the file names stay. */
  function UpdateRow(row: PhotoRow, body: UploadBody): PhotoRow {
    row.(fields := body.fields, isBlackWhite := StoredFlag(body), categoryId := StoredCategory(body))
  }

  /** `UPDATE photos SET ... WHERE id = ?`. */
  function UpdateRows(photos: seq<PhotoRow>, id: int, body: UploadBody): (r: seq<PhotoRow>)
    ensures |r| == |photos|
    ensures forall i :: 0 <= i < |photos| && photos[i].id != id ==> r[i] == photos[i]
    ensures forall i :: 0 <= i < |photos| && photos[i].id == id ==> r[i] == UpdateRow(photos[i], body)
    decreases |photos|
  {
    if |photos| == 0 then []
    else [if photos[0].id == id then UpdateRow(photos[0], body) else photos[0]] + UpdateRows(photos[1..], id, body)
  }

  /** The update-photo route: 404 when no row changed, that is when no row
      has the id; otherwise every row with the id takes the new values and
      every other row stays. */
  function UpdatePhoto(photos: seq<PhotoRow>, id: int, body: UploadBody): (r: Reply<seq<PhotoRow>>)
    ensures r.Fail? <==> !HasPhoto(photos, id)
    ensures r.Fail? ==> r.status == 404 && r.message == PhotoNotFound
    ensures r.Ok? ==> |r.value| == |photos|
    ensures r.Ok? ==> forall i :: 0 <= i < |photos| && photos[i].id != id ==> r.value[i] == photos[i]
    ensures r.Ok? ==> forall i :: 0 <= i < |photos| && photos[i].id == id ==>
              r.value[i].id == id && r.value[i].filename == photos[i].filename &&
              r.value[i].originalName == photos[i].originalName && r.value[i].fields == body.fields
  {
    if FindPhoto(photos, id).None? then Fail(404, PhotoNotFound)
    else Ok(UpdateRows(photos, id, body))
  }

  /** An updated row holds exactly what the upload route would have stored
      for the same body and file: both routes read the fields alike. */
  lemma UpdateAgreesWithUpload(row: PhotoRow, body: UploadBody)
    ensures UpdateRow(row, body) == Upload(Some(UploadedFile(row.originalName, row.filename)), body, row.id).value
  {
  }

  /** Sending the same update twice is sending it once. */
  lemma UpdatePhotoIdempotent(photos: seq<PhotoRow>, id: int, body: UploadBody)
    requires UpdatePhoto(photos, id, body).Ok?
    ensures UpdatePhoto(UpdatePhoto(photos, id, body).value, id, body) == UpdatePhoto(photos, id, body)
  {
    var rows := UpdateRows(photos, id, body);
    UpdateRowsTwice(photos, id, body);
    var i :| 0 <= i < |photos| && photos[i].id == id;
    assert rows[i].id == id;
  }

  lemma UpdateRowsTwice(photos: seq<PhotoRow>, id: int, body: UploadBody)
    ensures UpdateRows(UpdateRows(photos, id, body), id, body) == UpdateRows(photos, id, body)
  {
    var rows := UpdateRows(photos, id, body);
    var again := UpdateRows(rows, id, body);
    forall j | 0 <= j < |rows| ensures again[j] == rows[j] {
      if photos[j].id == id {
        assert rows[j].id == id;
      }
    }
  }
}
