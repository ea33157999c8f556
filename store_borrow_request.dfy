/** The form request that guards `POST /portal/borrow`: who may submit
    (anyone) and the rule table each field must pass. Values are taken as the
    validator sees them, after Laravel trims every input and turns empty
    strings into null; `None` is a missing or null field, and a date field is
    `None` also when it does not parse as a date. */
module StoreBorrowRequest {
  import opened Schema

  /** The submitted form. */
  datatype Submission = Submission(
    assetId: Option<int>,
    borrowerName: Option<string>,
    borrowerEmployeeId: Option<string>,
    borrowerPhone: Option<string>,
    borrowerEmail: Option<string>,
    borrowerDepartment: Option<string>,
    purpose: Option<string>,
    requestedStartDate: Option<int>,
    requestedEndDate: Option<int>,
    notes: Option<string>)

  /** The fields the rule table names. */
  datatype Field =
    | AssetIdField | BorrowerNameField | BorrowerEmployeeIdField | BorrowerPhoneField
    | BorrowerEmailField | BorrowerDepartmentField | PurposeField
    | RequestedStartDateField | RequestedEndDateField | NotesField

  /** `authorize`: the portal is public, so every submission is authorised. */
  function Authorize(sub: Submission): (allowed: bool)
    ensures allowed
  {
    true
  }

  /** `required`: present and not the empty string. */
  predicate Required(v: Option<string>)
  {
    v.Some? && v.value != ""
  }

  /** `required|string|max:n`. */
  predicate RequiredMax(v: Option<string>, n: nat)
  {
    Required(v) && |v.value| <= n
  }

  /** `nullable|string|max:n`. */
  predicate NullableMax(v: Option<string>, n: nat)
  {
    v.None? || |v.value| <= n
  }

  /** Whether one field passes its rules. `assetIds` are the ids in the
      `assets` table (`exists:assets,id`), `today` the current day, and
      `isEmail` the validator's address check. */
  predicate FieldPasses(sub: Submission, f: Field, assetIds: set<nat>, today: int,
                        isEmail: string -> bool)
  {
    match f
    // required|exists:assets,id  (the asset's status is not looked at)
    case AssetIdField => sub.assetId.Some? && sub.assetId.value >= 0 && sub.assetId.value as nat in assetIds
    // required|string|max:255
    case BorrowerNameField => RequiredMax(sub.borrowerName, 255)
    // required|string|max:255
    case BorrowerEmployeeIdField => RequiredMax(sub.borrowerEmployeeId, 255)
    // required|string|max:20
    case BorrowerPhoneField => RequiredMax(sub.borrowerPhone, 20)
    // nullable|email|max:255
    case BorrowerEmailField =>
      sub.borrowerEmail.None? || (isEmail(sub.borrowerEmail.value) && |sub.borrowerEmail.value| <= 255)
    // nullable|string|max:255
    case BorrowerDepartmentField => NullableMax(sub.borrowerDepartment, 255)
    // required|string
    case PurposeField => Required(sub.purpose)
    // required|date|after_or_equal:today
    case RequestedStartDateField => sub.requestedStartDate.Some? && sub.requestedStartDate.value >= today
    // required|date|after:requested_start_date  (a start that is missing or no
    // date compares as nothing, so only the start date is reported then)
    case RequestedEndDateField =>
      sub.requestedEndDate.Some? &&
      (sub.requestedStartDate.Some? ==> sub.requestedEndDate.value > sub.requestedStartDate.value)
    // nullable|string
    case NotesField => true
  }

  const AllFields: set<Field> := {
    AssetIdField, BorrowerNameField, BorrowerEmployeeIdField, BorrowerPhoneField,
    BorrowerEmailField, BorrowerDepartmentField, PurposeField,
    RequestedStartDateField, RequestedEndDateField, NotesField
  }

  /** Every field the insert copies into a non-null column is present. */
  predicate Complete(sub: Submission)
  {
    && sub.assetId.Some? && sub.assetId.value >= 0
    && sub.borrowerName.Some? && sub.borrowerEmployeeId.Some? && sub.borrowerPhone.Some?
    && sub.purpose.Some? && sub.requestedStartDate.Some? && sub.requestedEndDate.Some?
  }

  /** `rules`: the fields that fail, each reported once with its errors. */
  function Failures(sub: Submission, assetIds: set<nat>, today: int,
                    isEmail: string -> bool): (bad: set<Field>)
    ensures forall f :: f in bad <==> !FieldPasses(sub, f, assetIds, today, isEmail)
    ensures NotesField !in bad
    ensures bad == {} ==> Complete(sub)
  {
    var bad := set f | f in AllFields && !FieldPasses(sub, f, assetIds, today, isEmail);
    assert bad == {} ==> Complete(sub) by {
      if bad == {} {
        assert AssetIdField !in bad && BorrowerNameField !in bad;
        assert BorrowerEmployeeIdField !in bad && BorrowerPhoneField !in bad;
        assert PurposeField !in bad && RequestedStartDateField !in bad && RequestedEndDateField !in bad;
      }
    }
    bad
  }

  /** A submission the validator lets through. */
  predicate Passes(sub: Submission, assetIds: set<nat>, today: int, isEmail: string -> bool)
  {
    Failures(sub, assetIds, today, isEmail) == {}
  }

  /** What an accepted submission guarantees: the asset exists, the borrower's
      required fields are filled and within their limits, and the dates are
      ordered end > start >= today. Conversely every such submission passes. */
  lemma PassesExactly(sub: Submission, assetIds: set<nat>, today: int, isEmail: string -> bool)
    ensures Passes(sub, assetIds, today, isEmail) <==>
      && sub.assetId.Some? && sub.assetId.value >= 0 && sub.assetId.value as nat in assetIds
      && RequiredMax(sub.borrowerName, 255)
      && RequiredMax(sub.borrowerEmployeeId, 255)
      && RequiredMax(sub.borrowerPhone, 20)
      && (sub.borrowerEmail.None? || (isEmail(sub.borrowerEmail.value) && |sub.borrowerEmail.value| <= 255))
      && NullableMax(sub.borrowerDepartment, 255)
      && Required(sub.purpose)
      && sub.requestedStartDate.Some? && sub.requestedEndDate.Some?
      && today <= sub.requestedStartDate.value < sub.requestedEndDate.value
  {
    var bad := Failures(sub, assetIds, today, isEmail);
    if bad == {} {
      forall f | f in AllFields ensures FieldPasses(sub, f, assetIds, today, isEmail) {
        assert f !in bad;
      }
      assert FieldPasses(sub, AssetIdField, assetIds, today, isEmail);
      assert FieldPasses(sub, RequestedStartDateField, assetIds, today, isEmail);
      assert FieldPasses(sub, RequestedEndDateField, assetIds, today, isEmail);
    }
  }

  /** A start date in the past is refused, and so is an end date that does
      not come strictly after the start. */
  lemma DateOrderRefused(sub: Submission, assetIds: set<nat>, today: int, isEmail: string -> bool)
    ensures sub.requestedStartDate.Some? && sub.requestedStartDate.value < today ==>
      RequestedStartDateField in Failures(sub, assetIds, today, isEmail)
    ensures sub.requestedStartDate.Some? && sub.requestedEndDate.Some? &&
            sub.requestedEndDate.value <= sub.requestedStartDate.value ==>
      RequestedEndDateField in Failures(sub, assetIds, today, isEmail)
  {
  }

  /** The optional fields may be left out without failing. */
  lemma OptionalFieldsMayBeAbsent(sub: Submission, assetIds: set<nat>, today: int, isEmail: string -> bool)
    requires sub.borrowerEmail.None? && sub.borrowerDepartment.None? && sub.notes.None?
    ensures Failures(sub, assetIds, today, isEmail) !! {BorrowerEmailField, BorrowerDepartmentField, NotesField}
  {
  }

  /** The asset's status is not checked: a submission for an asset that is
      out on loan passes as long as the asset row exists. */
  lemma BorrowedAssetAccepted(asset: Asset, today: int, isEmail: string -> bool)
    requires asset.status == Borrowed
    ensures Passes(Submission(Some(asset.id as int), Some("Budi"), Some("EMP1001"), Some("0812"),
                              None, None, Some("Field survey"), Some(today), Some(today + 3), None),
                   {asset.id}, today, isEmail)
  {
    var sub := Submission(Some(asset.id as int), Some("Budi"), Some("EMP1001"), Some("0812"),
                          None, None, Some("Field survey"), Some(today), Some(today + 3), None);
    PassesExactly(sub, {asset.id}, today, isEmail);
  }
}
