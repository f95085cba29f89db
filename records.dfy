/**
 * The two record kinds the application persists, and the validation-and-build steps of
 * saveNewPatient and createNewOrder that turn form input into a record.
 */
module Records {
  import opened Wrappers
  import opened Text
  import Pricing

  /**
   * A patient as stored. `lastVisit` is present on the sample patients only and
   * `registrationDate` on patients registered through the form only.
   */
  datatype Patient = Patient(
    id: string,
    firstName: string,
    lastName: string,
    gender: string,
    dob: string,
    phone: string,
    nationalId: string,
    address: string,
    notes: string,
    lastVisit: Option<string>,
    registrationDate: Option<string>)

  /** A test order as stored; `amount` is fixed when the order is built. */
  datatype Order = Order(
    orderId: string,
    patientId: string,
    tests: seq<string>,
    priority: string,
    sampleType: string,
    instructions: string,
    date: string,
    status: string,
    amount: int)

  /** The raw values of the registration form. */
  datatype PatientForm = PatientForm(
    firstName: string,
    lastName: string,
    gender: string,
    dob: string,
    phone: string,
    nationalId: string,
    address: string,
    notes: string)

  /** The raw values of the order form, with the patient id read off the profile page. */
  datatype OrderForm = OrderForm(
    patientId: string,
    tests: seq<string>,
    priority: string,
    sampleType: string,
    instructions: string)

  datatype RegistrationError = MissingRequiredFields

  datatype OrderError = NoTestSelected | NoSampleType

  /**
   * saveNewPatient's record: names, phone, national id, address and notes are trimmed, gender
   * and date of birth are taken as they are. Every field but the notes must be non-empty after
   * that, so the registration is refused exactly when one of them is blank.
   */
  function NewPatient(form: PatientForm, id: string, today: string): (r: Result<Patient, RegistrationError>)
    ensures r.Failure? <==>
      (|| IsBlank(form.firstName) || IsBlank(form.lastName) || form.gender == "" || form.dob == ""
       || IsBlank(form.phone) || IsBlank(form.nationalId) || IsBlank(form.address))
    ensures r.Success? ==>
      && r.value.id == id && r.value.registrationDate == Some(today) && r.value.lastVisit == None
      && r.value.gender == form.gender && r.value.dob == form.dob
      && r.value.firstName != "" && r.value.lastName != "" && r.value.phone != ""
      && r.value.nationalId != "" && r.value.address != ""
      && r.value.firstName == Trim(form.firstName) && r.value.lastName == Trim(form.lastName)
      && r.value.phone == Trim(form.phone) && r.value.nationalId == Trim(form.nationalId)
      && r.value.address == Trim(form.address) && r.value.notes == Trim(form.notes)
  {
    TrimEmptyIffBlank(form.firstName);
    TrimEmptyIffBlank(form.lastName);
    TrimEmptyIffBlank(form.phone);
    TrimEmptyIffBlank(form.nationalId);
    TrimEmptyIffBlank(form.address);
    var p := Patient(
      id, Trim(form.firstName), Trim(form.lastName), form.gender, form.dob, Trim(form.phone),
      Trim(form.nationalId), Trim(form.address), Trim(form.notes), None, Some(today));
    if p.firstName == "" || p.lastName == "" || p.gender == "" || p.dob == ""
       || p.phone == "" || p.nationalId == "" || p.address == ""
    then Failure(MissingRequiredFields)
    else Success(p)
  }

  /**
   * createNewOrder's record. An empty test selection is refused first, then an empty sample
   * type; otherwise the order keeps the tests as selected (duplicates included), starts as
   * "pending" and is priced by the price table.
   */
  function NewOrder(form: OrderForm, orderId: string, today: string): (r: Result<Order, OrderError>)
    ensures |form.tests| == 0 ==> r == Failure(NoTestSelected)
    ensures |form.tests| > 0 && form.sampleType == "" ==> r == Failure(NoSampleType)
    ensures r.Success? <==> |form.tests| > 0 && form.sampleType != ""
    ensures r.Success? ==>
      && r.value.status == "pending"
      && r.value.amount == Pricing.OrderAmount(form.tests) && r.value.amount >= 0
      && r.value.tests == form.tests && r.value.patientId == form.patientId
      && r.value.orderId == orderId && r.value.date == today
      && r.value.priority == form.priority && r.value.sampleType == form.sampleType
      && r.value.instructions == form.instructions
  {
    if |form.tests| == 0 then Failure(NoTestSelected)
    else if form.sampleType == "" then Failure(NoSampleType)
    else Success(Order(
      orderId, form.patientId, form.tests, form.priority, form.sampleType, form.instructions,
      today, "pending", Pricing.OrderAmount(form.tests)))
  }
}
