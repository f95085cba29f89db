/**
 * The two persisted collections under the keys "patients" and "orders", and the operations
 * that read and write them: savePatientToStorage (insert or replace by id),
 * getPatientsFromStorage, getPatientById, saveOrderToStorage (append only), loadSampleData,
 * and the saving halves of saveNewPatient and createNewOrder.
 */
module Store {
  import opened Wrappers
  import opened Records
  import opened PatientList
  import Identifiers

  /** The five patients that loadSampleData saves on every page load. */
  function SamplePatients(): (ps: seq<Patient>)
    ensures |ps| == 5
  {
    [ Patient("P-2024-001", "John", "Doe", "male", "1992-05-15", "+1 (555) 123-4567", "123456789",
              "123 Main Street, New York, NY 10001",
              "Patient has mild anemia. Recommended iron supplements.", Some("2024-03-15"), None),
      Patient("P-2024-002", "Jane", "Smith", "female", "1988-08-22", "+1 (555) 987-6543", "987654321",
              "456 Oak Avenue, Los Angeles, CA 90001",
              "Annual check-up completed. All tests normal.", Some("2024-03-10"), None),
      Patient("P-2024-003", "Robert", "Johnson", "male", "1975-12-10", "+1 (555) 456-7890", "456789123",
              "789 Pine Road, Chicago, IL 60601",
              "Diabetes monitoring. Next appointment in 3 months.", Some("2024-03-05"), None),
      Patient("P-2024-004", "Sarah", "Williams", "female", "1995-03-28", "+1 (555) 789-0123", "789123456",
              "321 Maple Lane, Houston, TX 77001",
              "Pregnant - first trimester. Regular monitoring needed.", Some("2024-02-28"), None),
      Patient("P-2024-005", "Michael", "Brown", "male", "1980-11-03", "+1 (555) 234-5678", "234567891",
              "654 Cedar Street, Phoenix, AZ 85001",
              "High cholesterol. On medication.", Some("2024-02-25"), None) ]
  }

  /**
   * The browser's local storage, restricted to the two keys the application uses. `None`
   * stands for a key that was never written.
   */
  class LabStore {
    var patientsBlob: Option<seq<Patient>>
    var ordersBlob: Option<seq<Order>>

    /** A browser profile in which neither key has been written yet. */
    constructor ()
      ensures patientsBlob == None && ordersBlob == None
    {
      patientsBlob := None;
      ordersBlob := None;
    }

    /** getPatientsFromStorage: the stored list, or the empty list when the key is absent. */
    function Patients(): (ps: seq<Patient>)
      reads this
      ensures patientsBlob.None? ==> ps == []
      ensures patientsBlob.Some? ==> ps == patientsBlob.value
    {
      patientsBlob.GetOr([])
    }

    function Orders(): (os: seq<Order>)
      reads this
      ensures ordersBlob.None? ==> os == []
      ensures ordersBlob.Some? ==> os == ordersBlob.value
    {
      ordersBlob.GetOr([])
    }

    /** getPatientById: a lookup in the stored list. */
    function PatientById(id: string): (r: Option<Patient>)
      reads this
      ensures r.None? <==> forall j :: 0 <= j < |Patients()| ==> Patients()[j].id != id
      ensures r.Some? ==> r.value.id == id && r.value in Patients()
      ensures r.Some? ==> exists i :: 0 <= i < |Patients()| && Patients()[i] == r.value && forall j :: 0 <= j < i ==> Patients()[j].id != id
    {
      FindById(Patients(), id)
    }

    /** savePatientToStorage: replace the first record with the same id in place, else append; write the list back. */
    method SavePatient(p: Patient)
      modifies this
      ensures patientsBlob == Some(Upsert(old(Patients()), p))
      ensures ordersBlob == old(ordersBlob)
      ensures PatientById(p.id) == Some(p)
      ensures UniqueIds(old(Patients())) ==> UniqueIds(Patients())
    {
      var patients := Patients();
      var existingIndex := IndexOfId(patients, p.id);
      if existingIndex >= 0 {
        patients := patients[existingIndex := p];
      } else {
        patients := patients + [p];
      }
      patientsBlob := Some(patients);
      FindAfterUpsert(old(Patients()), p);
      if UniqueIds(old(Patients())) {
        UpsertKeepsIdsUnique(old(Patients()), p);
      }
    }

    /** saveOrderToStorage: always append, with no check on the order id; write the list back. */
    method SaveOrder(o: Order)
      modifies this
      ensures ordersBlob == Some(old(Orders()) + [o])
      ensures patientsBlob == old(patientsBlob)
    {
      var orders := Orders();
      orders := orders + [o];
      ordersBlob := Some(orders);
    }

    /** loadSampleData: save each sample patient in turn. */
    method LoadSampleData()
      modifies this
      ensures patientsBlob == Some(SaveAll(old(Patients()), SamplePatients()))
      ensures ordersBlob == old(ordersBlob)
    {
      SaveEach(SamplePatients());
    }

    /** The forEach loop of loadSampleData: savePatientToStorage on each record in turn. */
    method SaveEach(xs: seq<Patient>)
      modifies this
      ensures xs != [] ==> patientsBlob == Some(SaveAll(old(Patients()), xs))
      ensures xs == [] ==> patientsBlob == old(patientsBlob)
      ensures ordersBlob == old(ordersBlob)
    {
      var i := 0;
      while i < |xs|
        invariant 0 <= i <= |xs|
        invariant SaveAll(Patients(), xs[i..]) == SaveAll(old(Patients()), xs)
        invariant i == 0 ==> patientsBlob == old(patientsBlob)
        invariant i > 0 ==> patientsBlob.Some?
        invariant ordersBlob == old(ordersBlob)
      {
        assert xs[i..][1..] == xs[i + 1..];
        ghost var before := Patients();
        SavePatient(xs[i]);
        assert Patients() == Upsert(before, xs[i]);
        i := i + 1;
      }
      assert xs[i..] == [];
    }

    /**
     * saveNewPatient: an id is generated from the clock and the random number, the form is
     * validated, and only a valid registration is saved.
     */
    method SaveNewPatient(form: PatientForm, year: nat, ms: nat, rnd: nat, today: string)
      returns (r: Result<Patient, RegistrationError>)
      requires rnd < 1000
      modifies this
      ensures r == NewPatient(form, Identifiers.GeneratePatientId(year, ms, rnd), today)
      ensures r.Failure? ==> patientsBlob == old(patientsBlob)
      ensures r.Success? ==> patientsBlob == Some(Upsert(old(Patients()), r.value))
      ensures ordersBlob == old(ordersBlob)
    {
      var id := Identifiers.GeneratePatientId(year, ms, rnd);
      r := NewPatient(form, id, today);
      if r.Success? {
        SavePatient(r.value);
      }
    }

    /**
     * createNewOrder: the form is validated and only a valid order is built, given an id
     * from the clock and the random number, and appended.
     */
    method CreateNewOrder(form: OrderForm, year: nat, ms: nat, rnd: nat, today: string)
      returns (r: Result<Order, OrderError>)
      requires rnd < 1000
      modifies this
      ensures r == NewOrder(form, Identifiers.GenerateOrderId(year, ms, rnd), today)
      ensures r.Failure? ==> ordersBlob == old(ordersBlob)
      ensures r.Success? ==> ordersBlob == Some(old(Orders()) + [r.value])
      ensures patientsBlob == old(patientsBlob)
    {
      r := NewOrder(form, Identifiers.GenerateOrderId(year, ms, rnd), today);
      if r.Success? {
        SaveOrder(r.value);
      }
    }
  }

  // ---------------------------------------------------------------------------
  // What the sample data does to the store

  lemma SampleIdsDistinct()
    ensures UniqueIds(SamplePatients())
  {
  }

  /** Loading the samples into an empty store stores exactly the five samples, in order. */
  lemma LoadIntoEmpty()
    ensures SaveAll([], SamplePatients()) == SamplePatients()
  {
    SampleIdsDistinct();
    SaveAllFresh([], SamplePatients());
  }

  /**
   * Loading the samples again on a later page load changes nothing, whatever else was
   * registered meanwhile: the five sample ids are never duplicated.
   */
  lemma ReloadSamplesUnchanged(ps: seq<Patient>)
    ensures SaveAll(SaveAll(ps, SamplePatients()), SamplePatients()) == SaveAll(ps, SamplePatients())
  {
    SampleIdsDistinct();
    SaveAllIdempotent(ps, SamplePatients());
  }

  /** A patient id generated once the clock is past 99999 ms is never one of the sample ids. */
  lemma GeneratedIdIsNoSampleId(year: nat, ms: nat, rnd: nat)
    requires ms >= 100000 && rnd < 1000
    ensures Identifiers.GeneratePatientId(year, ms, rnd) !in Ids(SamplePatients())
  {
    Identifiers.GeneratedPatientIdLength(year, ms, rnd);
  }

  /**
   * Two page loads with a registration in between: the store ends with the five samples
   * followed by the new patient, whose generated id cannot clash with a sample id.
   */
  lemma RegistrationBetweenPageLoads(p: Patient)
    requires p.id !in Ids(SamplePatients())
    ensures SaveAll(Upsert(SaveAll([], SamplePatients()), p), SamplePatients()) == SamplePatients() + [p]
  {
    var samples := SamplePatients();
    LoadIntoEmpty();
    UpsertAppendsNew(samples, p);
    var before := samples + [p];
    SampleIdsDistinct();
    SaveAllFindsEach([], samples);
    forall x | x in samples ensures FindById(before, x.id) == Some(x) {
      FindOtherAfterUpsert(samples, p, x.id);
    }
    SaveAllUnchanged(before, samples);
  }
}
