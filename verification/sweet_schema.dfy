/**
  The `Sweet` schema of backend/models/Sweet.js: the fields of a stored record, the
  per-path validators that run when a record is created or updated, and the
  invariant `ValidSweet` that every stored record satisfies.

  Prices are integer cents (the schema's 0.01 .. 10000 dollars is 1 .. 1_000_000
  cents); quantities are integers.
*/
module SweetSchema {
  import opened Wrappers

  /** The id of the account that created a record (an ObjectId referencing `User`). */
  type UserId = string

  /** The six values of the `category` enum. */
  datatype Category = Chocolate | Candy | Gummy | Lollipop | HardCandy | Other

  const MaxNameLength := 100
  const MinPriceCents := 1
  const MaxPriceCents := 1_000_000
  const MinQuantity := 0
  const DefaultQuantity := 0

  /** The text by which a category is stored and queried. */
  function CategoryName(c: Category): string {
    match c
    case Chocolate => "Chocolate"
    case Candy => "Candy"
    case Gummy => "Gummy"
    case Lollipop => "Lollipop"
    case HardCandy => "Hard Candy"
    case Other => "Other"
  }

  /** The enum validator: a string is accepted exactly when it is the name of a category. */
  function ParseCategory(s: string): (r: Option<Category>)
    ensures r.Some? ==> CategoryName(r.value) == s
    ensures r.None? ==> forall c: Category :: CategoryName(c) != s
  {
    if s == "Chocolate" then Some(Chocolate)
    else if s == "Candy" then Some(Candy)
    else if s == "Gummy" then Some(Gummy)
    else if s == "Lollipop" then Some(Lollipop)
    else if s == "Hard Candy" then Some(HardCandy)
    else if s == "Other" then Some(Other)
    else None
  }

  lemma {:induction false} ParseCategoryName(c: Category)
    ensures ParseCategory(CategoryName(c)) == Some(c)
  {
    match c
    case Chocolate =>
    case Candy =>
    case Gummy =>
    case Lollipop =>
    case HardCandy =>
    case Other =>
  }

  // ---------------------------------------------------------------------------
  // The `trim: true` setter: JavaScript's String.prototype.trim, which removes
  // leading and trailing white space and line terminators.
  // ---------------------------------------------------------------------------

  predicate IsSpace(c: char) {
    || c == '\t' || c == '\n' || c == '\U{000B}' || c == '\U{000C}' || c == '\r' || c == ' '
    || c == '\U{00A0}' || c == '\U{1680}' || ('\U{2000}' <= c <= '\U{200A}')
    || c == '\U{2028}' || c == '\U{2029}' || c == '\U{202F}' || c == '\U{205F}'
    || c == '\U{3000}' || c == '\U{FEFF}'
  }

  predicate AllSpace(s: string) {
    forall i | 0 <= i < |s| :: IsSpace(s[i])
  }

  /** Neither the first nor the last character is white space. */
  predicate Trimmed(s: string) {
    s == [] || (!IsSpace(s[0]) && !IsSpace(s[|s| - 1]))
  }

  /** `s` is `r` with `lead` white-space characters before it and only white space after it. */
  ghost predicate Pads(s: string, lead: int, r: string) {
    && 0 <= lead && lead + |r| <= |s|
    && s[lead..lead + |r|] == r
    && AllSpace(s[..lead])
    && AllSpace(s[lead + |r|..])
  }

  function TrimStart(s: string): (r: string)
    ensures |r| <= |s| && r == s[|s| - |r|..]
    ensures r == [] || !IsSpace(r[0])
  {
    if s != [] && IsSpace(s[0]) then TrimStart(s[1..]) else s
  }

  function TrimEnd(s: string): (r: string)
    ensures |r| <= |s| && r == s[..|r|]
    ensures r == [] || !IsSpace(r[|r| - 1])
  {
    if s != [] && IsSpace(s[|s| - 1]) then TrimEnd(s[..|s| - 1]) else s
  }

  function Trim(s: string): (r: string)
    ensures |r| <= |s|
    ensures Trimmed(r)
  {
    TrimEnd(TrimStart(s))
  }

  /** Everything `TrimStart` drops is white space. */
  lemma {:induction false} TrimStartDropsSpace(s: string)
    ensures AllSpace(s[..|s| - |TrimStart(s)|])
  {
    if s != [] && IsSpace(s[0]) {
      TrimStartDropsSpace(s[1..]);
      SpacePrefixExtends(s, |s| - |TrimStart(s[1..])|);
    }
  }

  lemma SpacePrefixExtends(s: string, k: nat)
    requires 1 <= k <= |s| && IsSpace(s[0]) && AllSpace(s[1..][..k - 1])
    ensures AllSpace(s[..k])
  {
    forall i | 0 <= i < k ensures IsSpace(s[..k][i]) {
      if i > 0 {
        assert s[..k][i] == s[1..][..k - 1][i - 1];
      }
    }
  }

  /** Everything `TrimEnd` drops is white space. */
  lemma {:induction false} TrimEndDropsSpace(s: string)
    ensures AllSpace(s[|TrimEnd(s)|..])
  {
    if s != [] && IsSpace(s[|s| - 1]) {
      TrimEndDropsSpace(s[..|s| - 1]);
      SpaceSuffixExtends(s, |TrimEnd(s[..|s| - 1])|);
    }
  }

  lemma SpaceSuffixExtends(s: string, k: nat)
    requires k < |s| && IsSpace(s[|s| - 1]) && AllSpace(s[..|s| - 1][k..])
    ensures AllSpace(s[k..])
  {
    forall i | 0 <= i < |s| - k ensures IsSpace(s[k..][i]) {
      if i < |s| - 1 - k {
        assert s[k..][i] == s[..|s| - 1][k..][i];
      }
    }
  }

  /** `Trim` keeps a contiguous piece of its input and drops only white space around it. */
  lemma {:induction false} TrimDropsOnlySpace(s: string)
    ensures Pads(s, |s| - |TrimStart(s)|, Trim(s))
  {
    var t := TrimStart(s);
    var r := TrimEnd(t);
    TrimStartDropsSpace(s);
    TrimEndDropsSpace(t);
    PadsFromPieces(s, t, r);
  }

  /** Dropping white space from the front and then from the back pads the result. */
  lemma PadsFromPieces(s: string, t: string, r: string)
    requires |t| <= |s| && t == s[|s| - |t|..] && AllSpace(s[..|s| - |t|])
    requires |r| <= |t| && r == t[..|r|] && AllSpace(t[|r|..])
    ensures Pads(s, |s| - |t|, r)
  {
    var lead := |s| - |t|;
    assert s[lead..lead + |r|] == t[..|r|];
    assert s[lead + |r|..] == t[|r|..];
  }

  /** Trimming a string that is already trimmed returns it unchanged. */
  lemma TrimOfTrimmed(s: string)
    requires Trimmed(s)
    ensures Trim(s) == s
  {
    assert TrimStart(s) == s;
    assert TrimEnd(s) == s;
  }

  lemma {:induction false} TrimIdempotent(s: string)
    ensures Trim(Trim(s)) == Trim(s)
  {
    TrimOfTrimmed(Trim(s));
  }

  /**
    The `maxlength` validator counts UTF-16 code units: a character outside the
    Basic Multilingual Plane counts twice.
  */
  function Utf16Length(s: string): (n: nat)
    ensures |s| <= n <= 2 * |s|
  {
    if s == [] then 0
    else (if s[0] as int > 0xFFFF then 2 else 1) + Utf16Length(s[1..])
  }

  // ---------------------------------------------------------------------------
  // Records and their invariant.
  // ---------------------------------------------------------------------------

  /**
    A stored record. `createdAt` stands for the creation timestamp the schema's
    `timestamps` option adds; it is only used for ordering.
  */
  datatype Sweet = Sweet(
    name: string,
    category: Category,
    priceCents: int,
    quantity: int,
    createdBy: UserId,
    createdAt: nat)

  /** `required` and `maxlength` of `name`, applied to the trimmed value. */
  predicate NameAccepted(trimmed: string) {
    trimmed != [] && Utf16Length(trimmed) <= MaxNameLength
  }

  predicate PriceAccepted(cents: int) {
    MinPriceCents <= cents <= MaxPriceCents
  }

  predicate QuantityAccepted(q: int) {
    MinQuantity <= q
  }

  /** The schema invariant of a stored record. */
  predicate ValidSweet(s: Sweet) {
    && Trimmed(s.name)
    && NameAccepted(s.name)
    && PriceAccepted(s.priceCents)
    && QuantityAccepted(s.quantity)
  }

  // ---------------------------------------------------------------------------
  // Request bodies and validation.
  // ---------------------------------------------------------------------------

  /** The schema paths, as named in a validation error. */
  datatype Field = NameField | CategoryField | PriceField | QuantityField | CreatedByField

  const AllFields: set<Field> := {NameField, CategoryField, PriceField, QuantityField, CreatedByField}

  /**
    A request body: each schema path either supplied or absent. Paths the schema
    does not declare are dropped by the store and are not represented.
  */
  datatype Body = Body(
    name: Option<string>,
    category: Option<string>,
    price: Option<int>,
    quantity: Option<int>,
    createdBy: Option<UserId>)

  predicate Supplied(b: Body, f: Field) {
    match f
    case NameField => b.name.Some?
    case CategoryField => b.category.Some?
    case PriceField => b.price.Some?
    case QuantityField => b.quantity.Some?
    case CreatedByField => b.createdBy.Some?
  }

  /**
    Whether the validators declared for path `f` accept what `b` holds there;
    an absent path fails its `required` validator, except `quantity`, which
    takes its default.
  */
  predicate FieldAccepted(b: Body, f: Field) {
    match f
    case NameField => b.name.Some? && NameAccepted(Trim(b.name.value))
    case CategoryField => b.category.Some? && ParseCategory(b.category.value).Some?
    case PriceField => b.price.Some? && PriceAccepted(b.price.value)
    case QuantityField => QuantityAccepted(b.quantity.GetOr(DefaultQuantity))
    case CreatedByField => b.createdBy.Some?
  }

  /** The paths `b` supplies. */
  function SuppliedPaths(b: Body): (paths: set<Field>)
    ensures forall f :: f in paths <==> Supplied(b, f)
  {
    (if b.name.Some? then {NameField} else {})
    + (if b.category.Some? then {CategoryField} else {})
    + (if b.price.Some? then {PriceField} else {})
    + (if b.quantity.Some? then {QuantityField} else {})
    + (if b.createdBy.Some? then {CreatedByField} else {})
  }

  /** The paths among `paths` whose validators reject what `b` holds there. */
  function FailingPaths(b: Body, paths: set<Field>): (failing: set<Field>)
    ensures forall f :: f in failing <==> f in paths && !FieldAccepted(b, f)
  {
    (if NameField in paths && !FieldAccepted(b, NameField) then {NameField} else {})
    + (if CategoryField in paths && !FieldAccepted(b, CategoryField) then {CategoryField} else {})
    + (if PriceField in paths && !FieldAccepted(b, PriceField) then {PriceField} else {})
    + (if QuantityField in paths && !FieldAccepted(b, QuantityField) then {QuantityField} else {})
    + (if CreatedByField in paths && !FieldAccepted(b, CreatedByField) then {CreatedByField} else {})
  }

  lemma NoneFailing(b: Body, paths: set<Field>)
    requires FailingPaths(b, paths) == {}
    ensures forall f | f in paths :: FieldAccepted(b, f)
  {
    forall f | f in paths ensures FieldAccepted(b, f) {
      assert f !in FailingPaths(b, paths);
    }
  }

  /** The record `s` holds exactly the values `b` submitted, after casting. */
  predicate Holds(b: Body, s: Sweet) {
    && b.name.Some? && s.name == Trim(b.name.value)
    && b.category == Some(CategoryName(s.category))
    && b.price == Some(s.priceCents)
    && s.quantity == b.quantity.GetOr(DefaultQuantity)
    && b.createdBy == Some(s.createdBy)
  }

  /**
    The record `u` is `s` with every path that `b` supplies replaced by the
    body's value, and every other path, and the creation time, kept.
  */
  predicate Overlays(s: Sweet, b: Body, u: Sweet) {
    && u.name == (if b.name.Some? then Trim(b.name.value) else s.name)
    && (if b.category.Some? then b.category == Some(CategoryName(u.category)) else u.category == s.category)
    && u.priceCents == b.price.GetOr(s.priceCents)
    && u.quantity == b.quantity.GetOr(s.quantity)
    && u.createdBy == b.createdBy.GetOr(s.createdBy)
    && u.createdAt == s.createdAt
  }

  /**
    Document validation on insert: every path's validators run and every failing
    path is reported; on success the record is built from the cast values,
    stamped with creation time `stamp`.
  */
  function Validate(b: Body, stamp: nat): (r: Result<Sweet, set<Field>>)
    ensures r.Success? <==> forall f :: FieldAccepted(b, f)
    ensures r.Success? ==> ValidSweet(r.value) && Holds(b, r.value) && r.value.createdAt == stamp
    ensures r.Failure? ==> r.error != {} && forall f :: f in r.error <==> !FieldAccepted(b, f)
  {
    var errors := FailingPaths(b, AllFields);
    if errors != {} then Failure(errors)
    else
      assert FieldAccepted(b, NameField) && FieldAccepted(b, CategoryField);
      assert FieldAccepted(b, PriceField) && FieldAccepted(b, QuantityField);
      assert FieldAccepted(b, CreatedByField);
      Success(Sweet(
        Trim(b.name.value),
        ParseCategory(b.category.value).value,
        b.price.value,
        b.quantity.GetOr(DefaultQuantity),
        b.createdBy.value,
        stamp))
  }

  /**
    An update with validators enabled: only the supplied paths are validated,
    and on success they overwrite the stored record's values.
  */
  function ApplyUpdate(s: Sweet, b: Body): (r: Result<Sweet, set<Field>>)
    ensures r.Success? <==> forall f | Supplied(b, f) :: FieldAccepted(b, f)
    ensures r.Success? ==> Overlays(s, b, r.value)
    ensures r.Success? && ValidSweet(s) ==> ValidSweet(r.value)
    ensures r.Failure? ==> r.error != {} && forall f :: f in r.error <==> Supplied(b, f) && !FieldAccepted(b, f)
  {
    var errors := FailingPaths(b, SuppliedPaths(b));
    if errors != {} then Failure(errors)
    else
      NoneFailing(b, SuppliedPaths(b));
      Success(Patched(s, b))
  }

  /** `s` with each path `b` supplies replaced by its cast value. */
  function Patched(s: Sweet, b: Body): (u: Sweet)
    requires forall f | f in SuppliedPaths(b) :: FieldAccepted(b, f)
    ensures Overlays(s, b, u)
    ensures ValidSweet(s) ==> ValidSweet(u)
  {
    assert b.name.Some? ==> FieldAccepted(b, NameField);
    assert b.category.Some? ==> FieldAccepted(b, CategoryField);
    assert b.price.Some? ==> FieldAccepted(b, PriceField);
    assert b.quantity.Some? ==> FieldAccepted(b, QuantityField);
    Sweet(
      if b.name.Some? then Trim(b.name.value) else s.name,
      if b.category.Some? then ParseCategory(b.category.value).value else s.category,
      b.price.GetOr(s.priceCents),
      b.quantity.GetOr(s.quantity),
      b.createdBy.GetOr(s.createdBy),
      s.createdAt)
  }

  /** The body that submits every path of `s` as it is stored. */
  function BodyOf(s: Sweet): Body {
    Body(Some(s.name), Some(CategoryName(s.category)), Some(s.priceCents), Some(s.quantity), Some(s.createdBy))
  }

  /** Each path `patch` supplies, taken from `patch`; every other path from `base`. */
  function Overlay(base: Body, patch: Body): Body {
    Body(
      if patch.name.Some? then patch.name else base.name,
      if patch.category.Some? then patch.category else base.category,
      if patch.price.Some? then patch.price else base.price,
      if patch.quantity.Some? then patch.quantity else base.quantity,
      if patch.createdBy.Some? then patch.createdBy else base.createdBy)
  }

  lemma CategoryNameInjective(c: Category, d: Category)
    requires CategoryName(c) == CategoryName(d)
    ensures c == d
  {
    ParseCategoryName(c);
    ParseCategoryName(d);
  }

  /** Every path of a valid stored record, submitted again, passes its validators. */
  lemma {:induction false} StoredPathsAccepted(s: Sweet)
    requires ValidSweet(s)
    ensures Validate(BodyOf(s), s.createdAt).Success?
  {
    forall f ensures FieldAccepted(BodyOf(s), f) {
      OverlayAccepted(s, BodyOf(s), f);
    }
  }

  /** A valid stored record, submitted again as a body, validates to itself. */
  lemma {:induction false} ValidSweetRevalidates(s: Sweet)
    requires ValidSweet(s)
    ensures Validate(BodyOf(s), s.createdAt) == Success(s)
  {
    StoredPathsAccepted(s);
    var v := Validate(BodyOf(s), s.createdAt).value;
    assert Holds(BodyOf(s), v);
    assert v.name == s.name by {
      TrimOfTrimmed(s.name);
    }
    assert v.category == s.category by {
      CategoryNameInjective(v.category, s.category);
    }
  }

  lemma SameFailing(b: Body, m: Body)
    requires forall f :: FieldAccepted(m, f) <==> (Supplied(b, f) ==> FieldAccepted(b, f))
    ensures FailingPaths(m, AllFields) == FailingPaths(b, SuppliedPaths(b))
  {
  }

  /** On a path the update leaves alone, the merged body holds the valid stored value. */
  lemma {:induction false} OverlayAccepted(s: Sweet, b: Body, f: Field)
    requires ValidSweet(s)
    ensures FieldAccepted(Overlay(BodyOf(s), b), f) <==> (Supplied(b, f) ==> FieldAccepted(b, f))
  {
    match f
    case NameField => TrimOfTrimmed(s.name);
    case CategoryField => ParseCategoryName(s.category);
    case PriceField =>
    case QuantityField =>
    case CreatedByField =>
  }

  /**
    Validating only the supplied paths of an update agrees with validating the
    whole merged document, whenever the stored record is valid.
  */
  lemma {:induction false} UpdateIsFullRevalidation(s: Sweet, b: Body)
    requires ValidSweet(s)
    ensures ApplyUpdate(s, b) == Validate(Overlay(BodyOf(s), b), s.createdAt)
  {
    var m := Overlay(BodyOf(s), b);
    forall f ensures FieldAccepted(m, f) <==> (Supplied(b, f) ==> FieldAccepted(b, f)) {
      OverlayAccepted(s, b, f);
    }
    SameFailing(b, m);
    SameSuccess(s, b);
  }

  /** When both succeed, the update and the full validation build the same record. */
  lemma SameSuccess(s: Sweet, b: Body)
    requires ValidSweet(s)
    ensures var m := Overlay(BodyOf(s), b);
      ApplyUpdate(s, b).Success? && Validate(m, s.createdAt).Success? ==>
        ApplyUpdate(s, b).value == Validate(m, s.createdAt).value
  {
    var m := Overlay(BodyOf(s), b);
    if ApplyUpdate(s, b).Success? && Validate(m, s.createdAt).Success? {
      var x, y := ApplyUpdate(s, b).value, Validate(m, s.createdAt).value;
      if b.name.None? {
        TrimOfTrimmed(s.name);
      }
      CategoryNameInjective(x.category, y.category);
    }
  }
}
