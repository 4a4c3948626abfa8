/** The cover-page form of src/components/CoverPageForm.tsx: the schema that
    validates its eight text fields, the logo state, and the payload handed
    on at submission (which the PDF report's cover page then shows). */
module CoverPageForm {

  import opened Seqs
  import opened PdfReport

  datatype FormValues = FormValues(
    studentName: string, studentId: string, institution: string, department: string,
    companyName: string, supervisorName: string, startDate: string, endDate: string)

  /** A failed field: its name and the schema's message for it. */
  datatype FieldError = FieldError(field: string, message: string)

  datatype FormState = FormState(values: FormValues, institutionLogo: Option<string>, companyLogo: Option<string>)

  /** Every field's minimum length. */
  const MinLength: int := 2

  const FieldNames: seq<string> := [
    "studentName", "studentId", "institution", "department",
    "companyName", "supervisorName", "startDate", "endDate"]

  const Messages: seq<string> := [
    "Student name is required", "Student ID is required", "Institution name is required",
    "Department name is required", "Company name is required", "Supervisor name is required",
    "Start date is required", "End date is required"]

  function FieldsOf(v: FormValues): (r: seq<string>)
    ensures |r| == 8
  {
    [v.studentName, v.studentId, v.institution, v.department,
     v.companyName, v.supervisorName, v.startDate, v.endDate]
  }

  /** The schema's error for field i. */
  function ErrorFor(i: int): FieldError
    requires 0 <= i < 8
  {
    FieldError(FieldNames[i], Messages[i])
  }

  /** The errors of fields first..7, in schema order. */
  function ErrorsFrom(fields: seq<string>, first: nat): (r: seq<FieldError>)
    requires |fields| == 8 && first <= 8
    ensures |r| <= 8 - first
    ensures |r| == 0 <==> forall i :: first <= i < 8 ==> |fields[i]| >= MinLength
    ensures forall e :: e in r ==> exists i :: first <= i < 8 && |fields[i]| < MinLength && e == FieldError(FieldNames[i], Messages[i])
    ensures forall i {:trigger ErrorFor(i)} :: first <= i < 8 && |fields[i]| < MinLength ==> ErrorFor(i) in r
    decreases 8 - first
  {
    if first == 8 then []
    else
      var rest := ErrorsFrom(fields, first + 1);
      if |fields[first]| < MinLength then [FieldError(FieldNames[first], Messages[first])] + rest else rest
  }

  /** coverPageSchema: every field must hold at least two characters; each
      short field is reported with its own message. */
  function Validate(v: FormValues): (errors: seq<FieldError>)
    ensures |errors| == 0 <==> forall i :: 0 <= i < 8 ==> |FieldsOf(v)[i]| >= MinLength
    ensures forall e :: e in errors ==> exists i :: 0 <= i < 8 && |FieldsOf(v)[i]| < MinLength && e == FieldError(FieldNames[i], Messages[i])
    ensures forall i {:trigger ErrorFor(i)} :: 0 <= i < 8 && |FieldsOf(v)[i]| < MinLength ==> ErrorFor(i) in errors
  {
    ErrorsFrom(FieldsOf(v), 0)
  }

  predicate IsValid(v: FormValues)
  {
    |Validate(v)| == 0
  }

  /** Valid exactly when each of the eight fields has length at least two. */
  lemma ValidMeans(v: FormValues)
    ensures IsValid(v) <==>
      && |v.studentName| >= 2 && |v.studentId| >= 2 && |v.institution| >= 2 && |v.department| >= 2
      && |v.companyName| >= 2 && |v.supervisorName| >= 2 && |v.startDate| >= 2 && |v.endDate| >= 2
  {
    var f := FieldsOf(v);
    if !IsValid(v) {
      var i :| 0 <= i < 8 && |f[i]| < MinLength;
    }
  }

  /** The form's defaultValues: every field empty. */
  const Defaults: FormValues := FormValues("", "", "", "", "", "", "", "")

  /** The defaults fail, with one error per field in schema order. */
  lemma DefaultsFail()
    ensures !IsValid(Defaults)
    ensures |Validate(Defaults)| == 8
    ensures forall i :: 0 <= i < 8 ==> Validate(Defaults)[i] == FieldError(FieldNames[i], Messages[i])
  {
  }

  /** The state on opening: default values and no logos. */
  const InitialState: FormState := FormState(Defaults, None, None)

  function RemoveInstitutionLogo(st: FormState): (r: FormState)
    ensures r.institutionLogo.None? && r.values == st.values && r.companyLogo == st.companyLogo
  {
    st.(institutionLogo := None)
  }

  function RemoveCompanyLogo(st: FormState): (r: FormState)
    ensures r.companyLogo.None? && r.values == st.values && r.institutionLogo == st.institutionLogo
  {
    st.(companyLogo := None)
  }

  /** form.handleSubmit(handleSubmit): the payload is produced only when the
      values validate, and is the values plus the current logos. */
  function Submit(st: FormState): (r: Option<CoverPageData>)
    ensures r.Some? <==> IsValid(st.values)
    ensures r.Some? ==> r.value.institutionLogo == st.institutionLogo && r.value.companyLogo == st.companyLogo
    ensures r.Some? ==> FieldsOf(st.values) == [
      r.value.studentName, r.value.studentId, r.value.institution, r.value.department,
      r.value.companyName, r.value.supervisorName, r.value.startDate, r.value.endDate]
  {
    if !IsValid(st.values) then None
    else
      var v := st.values;
      Some(CoverPageData(v.studentName, v.studentId, v.institution, v.department,
                         v.companyName, v.supervisorName, v.startDate, v.endDate,
                         st.institutionLogo, st.companyLogo))
  }

  /** Submitting the opening form yields nothing; a submitted form's cover
      page shows each entered value after its label and draws no logo that
      was never set. */
  lemma SubmittedCover(st: FormState, f: Formatters)
    ensures Submit(InitialState).None?
    ensures InitialState.institutionLogo.None? && InitialState.companyLogo.None?
    ensures Submit(st).Some? ==>
      var lines := CoverOf(Submit(st).value, f).lines;
      && lines[0].text[|CoverLabels[0]|..] == st.values.studentName
      && lines[1].text[|CoverLabels[1]|..] == st.values.studentId
      && lines[2].text[|CoverLabels[2]|..] == st.values.institution
      && lines[3].text[|CoverLabels[3]|..] == st.values.department
      && lines[4].text[|CoverLabels[4]|..] == st.values.companyName
      && lines[5].text[|CoverLabels[5]|..] == st.values.supervisorName
    ensures Submit(RemoveCompanyLogo(RemoveInstitutionLogo(st))).Some? ==>
      |CoverOf(Submit(RemoveCompanyLogo(RemoveInstitutionLogo(st))).value, f).images| == 0
  {
    DefaultsFail();
    if Submit(st).Some? {
      CoverFieldsShown(Submit(st).value, f);
    }
  }
}
