/** The photo filter of the admin panel: six text filters applied one after
    another to the photo list, the field-wise filter update and the reset.

    The photo rows carry the loosely typed values the database returns, and
    the comparisons follow JavaScript's loose equality (`==`) and relational
    comparison (`>=`, `<=`), with `Text.ToNumber` standing for the
    string-to-number conversion they perform. */
module AdminFilter {
  import opened Basics
  import opened Text

  /** A value whose type the database decides: `null`, a number or text. */
  datatype JsValue = JNull | JNum(n: int) | JText(t: string)

  /** The fields of a photo row the filters look at. */
  datatype AdminPhoto = AdminPhoto(
    id: int,
    filename: string,
    cameraInfo: Option<string>,
    categoryName: Option<string>,
    categoryId: Option<int>,
    isBlackWhite: JsValue,
    date: Option<string>)

  /** The panel's filter state; the empty string means "not filtering". */
  datatype Filters = Filters(
    search: string,
    category: string,
    photoType: string,
    dateFrom: string,
    dateTo: string,
    camera: string)

  datatype FilterField = Search | Category | PhotoType | DateFrom | DateTo | Camera

  /** The initial filter state, and the state the reset returns to. */
  const NoFilters := Filters("", "", "", "", "", "")

  /** The order in which the filters are applied. */
  const Fields := [Search, Category, PhotoType, DateFrom, DateTo, Camera]

  function Get(f: Filters, field: FilterField): string {
    match field
    case Search => f.search
    case Category => f.category
    case PhotoType => f.photoType
    case DateFrom => f.dateFrom
    case DateTo => f.dateTo
    case Camera => f.camera
  }

  // ---------------------------------------------------------------------
  // Filter state updates

  /** `handleFilterChange(field, value)`: only the named field changes. */
  function SetField(f: Filters, field: FilterField, value: string): (r: Filters)
    ensures Get(r, field) == value
    ensures forall g :: g != field ==> Get(r, g) == Get(f, g)
  {
    match field
    case Search => f.(search := value)
    case Category => f.(category := value)
    case PhotoType => f.(photoType := value)
    case DateFrom => f.(dateFrom := value)
    case DateTo => f.(dateTo := value)
    case Camera => f.(camera := value)
  }

  /** `clearFilters`: every field is empty again, whatever the state was. */
  function ClearFilters(f: Filters): (r: Filters)
    ensures forall g :: Get(r, g) == ""
  {
    NoFilters
  }

  // ---------------------------------------------------------------------
  // The individual tests

  /** A present, non-empty string: JavaScript truthiness of a string column. */
  predicate Truthy(o: Option<string>) {
    o.Some? && o.value != ""
  }

  /** `value == true` or `value == false` on a loosely typed value, with the
      boolean already converted to the number `n`. `null` equals neither
      number, and the decimal text of `n` equals `n`. */
  predicate LooseEqualsNumber(v: JsValue, n: int): (r: bool)
    ensures v == JNull ==> !r
    ensures v == JText(IntString(n)) ==> r
  {
    IntStringToNumber(n);
    match v
    case JNull => false
    case JNum(m) => m == n
    case JText(t) => ToNumber(t) == Some(n)
  }

  /** `date >= from`: string comparison for a dated row; a missing date
      compares as the number 0 against the number the text converts to, and
      NaN makes the comparison false. */
  predicate DateAtLeast(date: Option<string>, from: string): (r: bool)
    ensures date == Some(from) ==> r
    ensures date.None? && ToNumber(from).None? ==> !r
  {
    match date
    case Some(d) => LexLessEq(from, d)
    case None => match ToNumber(from) case Some(n) => 0 >= n case None => false
  }

  /** `date <= to`, read like `DateAtLeast`. */
  predicate DateAtMost(date: Option<string>, to: string): (r: bool)
    ensures date == Some(to) ==> r
    ensures date.None? && ToNumber(to).None? ==> !r
  {
    match date
    case Some(d) => LexLessEq(d, to)
    case None => match ToNumber(to) case Some(n) => 0 <= n case None => false
  }

  /** The test an active filter applies, given the filter's text `v`. An
      empty search matches every photo, since every text includes the empty
      string; the category, type and camera tests fail on a missing value. */
  predicate Test(field: FilterField, v: string, p: AdminPhoto): (r: bool)
    ensures field == Search && v == "" ==> r
    ensures field == Category && r ==> p.categoryId.Some?
    ensures field == PhotoType && r ==> p.isBlackWhite != JNull
    ensures field == Camera && r ==> Truthy(p.cameraInfo)
  {
    ContainsEmpty(Lower(p.filename));
    match field
    case Search =>
      var q := Lower(v);
      Contains(Lower(p.filename), q) ||
      (Truthy(p.cameraInfo) && Contains(Lower(p.cameraInfo.value), q)) ||
      (Truthy(p.categoryName) && Contains(Lower(p.categoryName.value), q))
    case Category => p.categoryId.Some? && ToNumber(v) == Some(p.categoryId.value)
    case PhotoType => LooseEqualsNumber(p.isBlackWhite, if v == "black_white" then 1 else 0)
    case DateFrom => DateAtLeast(p.date, v)
    case DateTo => DateAtMost(p.date, v)
    case Camera => Truthy(p.cameraInfo) && Contains(Lower(p.cameraInfo.value), Lower(v))
  }

  /** A photo passes a filter that is off, or whose test it meets. */
  predicate Passes(f: Filters, field: FilterField, p: AdminPhoto) {
    Get(f, field) == "" || Test(field, Get(f, field), p)
  }

  predicate AllPass(f: Filters, fields: seq<FilterField>, p: AdminPhoto) {
    forall i :: 0 <= i < |fields| ==> Passes(f, fields[i], p)
  }

  /** The reference meaning of the filter state: a photo is listed exactly
      when it passes every filter. */
  predicate Matches(f: Filters, p: AdminPhoto) {
    forall g: FilterField :: Passes(f, g, p)
  }

  // ---------------------------------------------------------------------
  // Selecting photos

  /** `r` is `s` with some elements left out, the rest kept in order. */
  predicate SubsequenceOf<T(==)>(r: seq<T>, s: seq<T>)
    decreases |s|
  {
    if |r| == 0 then true
    else if |s| == 0 then false
    else (r[0] == s[0] && SubsequenceOf(r[1..], s[1..])) || SubsequenceOf(r, s[1..])
  }

  /** The photos of `s` that pass all of `fields`, in their original order,
      each passing photo as often as it occurs in `s`. */
  function SelectedBy(s: seq<AdminPhoto>, f: Filters, fields: seq<FilterField>): (r: seq<AdminPhoto>)
    ensures SubsequenceOf(r, s)
    ensures forall x :: x in r <==> x in s && AllPass(f, fields, x)
    ensures forall x :: multiset(r)[x] == if AllPass(f, fields, x) then multiset(s)[x] else 0
    decreases |s|
  {
    if |s| == 0 then []
    else
      var rest := SelectedBy(s[1..], f, fields);
      assert forall x :: x in s <==> x == s[0] || x in s[1..];
      assert s == [s[0]] + s[1..];
      assert multiset(s) == multiset([s[0]]) + multiset(s[1..]);
      if AllPass(f, fields, s[0]) then
        var r := [s[0]] + rest;
        assert r[1..] == rest;
        r
      else rest
  }

  /** One stage of the panel's filter: an empty filter text leaves the list
      as it is; otherwise the photos failing the test are dropped. */
  function Stage(s: seq<AdminPhoto>, f: Filters, field: FilterField): (r: seq<AdminPhoto>)
    ensures Get(f, field) == "" ==> r == s
    ensures forall x :: x in r <==> x in s && Passes(f, field, x)
    ensures forall x :: multiset(r)[x] == if Passes(f, field, x) then multiset(s)[x] else 0
  {
    AllPassOne(f, field);
    if Get(f, field) == "" then s else SelectedBy(s, f, [field])
  }

  lemma AllPassOne(f: Filters, field: FilterField)
    ensures forall x :: AllPass(f, [field], x) == Passes(f, field, x)
  {
    assert [field][0] == field;
  }

  /** A stage, off or on, is the selection by its one field. */
  lemma StageIsSelection(s: seq<AdminPhoto>, f: Filters, field: FilterField)
    ensures Stage(s, f, field) == SelectedBy(s, f, [field])
  {
    if Get(f, field) == "" {
      SelectedByAllPassing(s, f, [field]);
    }
  }

  /** Filtering a list whose photos all pass changes nothing. */
  lemma {:induction false} SelectedByAllPassing(s: seq<AdminPhoto>, f: Filters, fields: seq<FilterField>)
    requires forall k :: 0 <= k < |s| ==> AllPass(f, fields, s[k])
    ensures SelectedBy(s, f, fields) == s
    decreases |s|
  {
    if |s| > 0 {
      SelectedByAllPassing(s[1..], f, fields);
      assert [s[0]] + s[1..] == s;
    }
  }

  lemma AllPassAppend(f: Filters, a: seq<FilterField>, b: seq<FilterField>, x: AdminPhoto)
    ensures AllPass(f, a + b, x) <==> AllPass(f, a, x) && AllPass(f, b, x)
  {
    if AllPass(f, a, x) && AllPass(f, b, x) {
      forall i | 0 <= i < |a + b| ensures Passes(f, (a + b)[i], x) {
        if i >= |a| { assert (a + b)[i] == b[i - |a|]; }
      }
    }
    if AllPass(f, a + b, x) {
      forall i | 0 <= i < |a| ensures Passes(f, a[i], x) {
        assert (a + b)[i] == a[i];
      }
      forall i | 0 <= i < |b| ensures Passes(f, b[i], x) {
        assert (a + b)[|a| + i] == b[i];
      }
    }
  }

  /** Filtering by `a` and then by `b` is filtering by both at once. */
  lemma {:induction false} SelectedByFuse(s: seq<AdminPhoto>, f: Filters, a: seq<FilterField>, b: seq<FilterField>)
    ensures SelectedBy(SelectedBy(s, f, a), f, b) == SelectedBy(s, f, a + b)
    decreases |s|
  {
    if |s| > 0 {
      SelectedByFuse(s[1..], f, a, b);
      AllPassAppend(f, a, b, s[0]);
      var inner := SelectedBy(s[1..], f, a);
      if AllPass(f, a, s[0]) {
        assert ([s[0]] + inner)[1..] == inner;
      }
    }
  }

  /** Two sets of criteria that agree on every photo select the same list. */
  lemma {:induction false} SelectedBySameCriteria(s: seq<AdminPhoto>, f: Filters, a: seq<FilterField>,
                                                  f': Filters, b: seq<FilterField>)
    requires forall x :: AllPass(f, a, x) == AllPass(f', b, x)
    ensures SelectedBy(s, f, a) == SelectedBy(s, f', b)
    decreases |s|
  {
    if |s| > 0 {
      SelectedBySameCriteria(s[1..], f, a, f', b);
    }
  }

  /** Applies the stages for `fields` in order, each to the previous one's
      result: the chain of `if (filters.x) filtered = filtered.filter(...)`.
      The result is the list filtered by all of them at once. */
  function ApplyStages(s: seq<AdminPhoto>, f: Filters, fields: seq<FilterField>): (r: seq<AdminPhoto>)
    ensures r == SelectedBy(s, f, fields)
    decreases |fields|
  {
    if |fields| == 0 then
      SelectedByAllPassing(s, f, fields);
      s
    else
      var s1 := Stage(s, f, fields[0]);
      StageIsSelection(s, f, fields[0]);
      SelectedByFuse(s, f, [fields[0]], fields[1..]);
      assert [fields[0]] + fields[1..] == fields;
      ApplyStages(s1, f, fields[1..])
  }

  lemma FieldsComplete(f: Filters, x: AdminPhoto)
    ensures AllPass(f, Fields, x) <==> Matches(f, x)
  {
    if AllPass(f, Fields, x) {
      forall g: FilterField ensures Passes(f, g, x) {
        match g
        case Search => assert Fields[0] == g;
        case Category => assert Fields[1] == g;
        case PhotoType => assert Fields[2] == g;
        case DateFrom => assert Fields[3] == g;
        case DateTo => assert Fields[4] == g;
        case Camera => assert Fields[5] == g;
      }
    }
  }

  /** `filterPhotos`: the photos that match every filter, in list order,
      each as often as it is listed, and nothing else. */
  function FilterPhotos(photos: seq<AdminPhoto>, f: Filters): (r: seq<AdminPhoto>)
    ensures SubsequenceOf(r, photos)
    ensures forall x :: x in r <==> x in photos && Matches(f, x)
    ensures forall x :: multiset(r)[x] == if Matches(f, x) then multiset(photos)[x] else 0
  {
    forall x ensures AllPass(f, Fields, x) <==> Matches(f, x) {
      FieldsComplete(f, x);
    }
    ApplyStages(photos, f, Fields)
  }

  // ---------------------------------------------------------------------
  // Properties

  /** The order of the stages does not matter: any ordering of the six
      filters yields the same list. */
  lemma StageOrderIrrelevant(photos: seq<AdminPhoto>, f: Filters, order: seq<FilterField>)
    requires forall g :: g in order
    ensures ApplyStages(photos, f, order) == FilterPhotos(photos, f)
  {
    forall x ensures AllPass(f, order, x) == AllPass(f, Fields, x) {
      FieldsComplete(f, x);
      if AllPass(f, order, x) {
        forall g: FilterField ensures Passes(f, g, x) {
          assert g in order;
          var i :| 0 <= i < |order| && order[i] == g;
        }
      }
    }
    SelectedBySameCriteria(photos, f, order, f, Fields);
  }

  /** Filtering an already filtered list again changes nothing. */
  lemma FilterPhotosIdempotent(photos: seq<AdminPhoto>, f: Filters)
    ensures FilterPhotos(FilterPhotos(photos, f), f) == FilterPhotos(photos, f)
  {
    var r := FilterPhotos(photos, f);
    forall k | 0 <= k < |r| ensures AllPass(f, Fields, r[k]) {
      FieldsComplete(f, r[k]);
    }
    SelectedByAllPassing(r, f, Fields);
  }

  /** With the filters cleared, every photo is listed. */
  lemma ClearedShowsAll(photos: seq<AdminPhoto>, f: Filters)
    ensures FilterPhotos(photos, ClearFilters(f)) == photos
  {
    SelectedByAllPassing(photos, NoFilters, Fields);
  }

  lemma SearchCaseOneField(f: Filters, q: string, g: FilterField, x: AdminPhoto)
    ensures Passes(f.(search := q), g, x) == Passes(f.(search := Lower(q)), g, x)
  {
    if g == Search {
      LowerIdempotent(q);
      assert |Lower(q)| == |q|;
    }
  }

  /** The search ignores the case of the query. */
  lemma SearchIgnoresCase(photos: seq<AdminPhoto>, f: Filters, q: string)
    ensures FilterPhotos(photos, f.(search := q)) == FilterPhotos(photos, f.(search := Lower(q)))
  {
    var f1, f2 := f.(search := q), f.(search := Lower(q));
    forall x ensures AllPass(f1, Fields, x) == AllPass(f2, Fields, x) {
      forall g ensures Passes(f1, g, x) == Passes(f2, g, x) {
        SearchCaseOneField(f, q, g, x);
      }
      FieldsComplete(f1, x);
      FieldsComplete(f2, x);
    }
    SelectedBySameCriteria(photos, f1, Fields, f2, Fields);
  }

  /** A category filter holding the decimal text of a category id keeps
      exactly the photos of that category. */
  lemma CategoryFilterSelectsId(f: Filters, id: int, p: AdminPhoto)
    ensures Passes(f.(category := IntString(id)), Category, p) <==> p.categoryId == Some(id)
  {
    IntStringToNumber(id);
  }

  /** On a flag stored as a number, the "black_white" setting keeps the
      photos stored as 1 and the other setting keeps those stored as 0. */
  lemma PhotoTypeOnNumericFlag(f: Filters, p: AdminPhoto, b: int)
    requires p.isBlackWhite == JNum(b) && f.photoType != ""
    ensures f.photoType == "black_white" ==> (Passes(f, PhotoType, p) <==> b == 1)
    ensures f.photoType != "black_white" ==> (Passes(f, PhotoType, p) <==> b == 0)
  {
  }

  /** Both date bounds are inclusive: a dated photo passes a bound equal to
      its own date, and fails a lower bound after it or an upper bound
      before it. */
  lemma DateBoundsInclusive(f: Filters, p: AdminPhoto)
    requires p.date.Some?
    ensures f.dateFrom == p.date.value ==> Passes(f, DateFrom, p)
    ensures f.dateTo == p.date.value ==> Passes(f, DateTo, p)
    ensures f.dateFrom != "" && LexLess(p.date.value, f.dateFrom) ==> !Passes(f, DateFrom, p)
    ensures f.dateTo != "" && LexLess(f.dateTo, p.date.value) ==> !Passes(f, DateTo, p)
  {
    LexLessIrreflexive(p.date.value);
  }

  /** An active camera filter drops every photo without a camera
      description. */
  lemma CameraFilterNeedsCamera(f: Filters, p: AdminPhoto)
    requires f.camera != "" && !Truthy(p.cameraInfo)
    ensures !Passes(f, Camera, p)
  {
  }

  /** Text made of lower-case letters converts to NaN. */
  lemma LetterTextIsNaN(t: string)
    requires |t| > 0 && forall i :: 0 <= i < |t| ==> 'a' <= t[i] <= 'z'
    ensures ToNumber(t) == None
  {
    assert !IsDigit(t[0]);
    ToNumberNaN(t);
  }

  /** A type flag stored as the text "true" or "false" matches neither the
      black-and-white nor the colour filter. */
  lemma TextFlagMatchesNoType(f: Filters, p: AdminPhoto)
    requires p.isBlackWhite == JText("true") || p.isBlackWhite == JText("false")
    requires f.photoType != ""
    ensures !Passes(f, PhotoType, p)
  {
    var t := p.isBlackWhite.t;
    assert forall i :: 0 <= i < |t| ==> 'a' <= t[i] <= 'z';
    LetterTextIsNaN(t);
  }

  /** The text a date input produces: `YYYY-MM-DD`. */
  predicate DateLike(s: string) {
    |s| == 10 && s[4] == '-' && s[7] == '-' &&
    IsDigit(s[0]) && IsDigit(s[1]) && IsDigit(s[2]) && IsDigit(s[3]) &&
    IsDigit(s[5]) && IsDigit(s[6]) && IsDigit(s[8]) && IsDigit(s[9])
  }

  lemma DateHasNoExponent(s: string)
    requires DateLike(s)
    ensures !IsJsWhitespace(s[0]) && !IsJsWhitespace(s[|s| - 1])
    ensures forall i :: 0 <= i < |s| ==> s[i] != 'e' && s[i] != 'E'
  {
    assert forall i :: 0 <= i < |s| ==> IsDigit(s[i]) || s[i] == '-';
  }

  /** A photo stored with an empty date, as the upload forms send it when
      no date was read or typed, passes every upper date bound, since the
      empty string is at most any string, and fails every lower bound. */
  lemma EmptyDatePhotoBounds(f: Filters, p: AdminPhoto)
    requires p.date == Some("")
    ensures Passes(f, DateTo, p)
    ensures f.dateFrom != "" ==> !Passes(f, DateFrom, p)
  {
  }

  /** A photo with a NULL date is dropped by any date bound a date input
      gives, because the bound converts to NaN. */
  lemma UndatedPhotoOutsideDateRange(f: Filters, p: AdminPhoto)
    requires p.date == None
    ensures DateLike(f.dateFrom) ==> !Passes(f, DateFrom, p)
    ensures DateLike(f.dateTo) ==> !Passes(f, DateTo, p)
  {
    if DateLike(f.dateFrom) {
      DateHasNoExponent(f.dateFrom);
      InnerMinusIsNaN(f.dateFrom, 4);
    }
    if DateLike(f.dateTo) {
      DateHasNoExponent(f.dateTo);
      InnerMinusIsNaN(f.dateTo, 4);
    }
  }
}
