/** The record shapes the views read and write: a facility, a patient and a
    clinical note, each as the row the record store holds. */
module Records {

  datatype Option<T> = None | Some(value: T)

  /** A facility row. Doctors are the ids of the user accounts linked to it. */
  datatype Facility = Facility(
    id: nat,
    name: string,
    address: string,
    phone: string,
    doctors: set<nat>)

  /** A patient row. The owning facility and doctor are kept by name, not by
      reference; `diagnoses` is a free-text, comma-separated list. */
  datatype Patient = Patient(
    name: string,
    facilityName: string,
    doctorName: string,
    age: int,
    diagnoses: string,
    phone: string,
    address: string)

  /** A clinical note row, linked to its patient and facility by name. */
  datatype PatientNote = PatientNote(
    patientName: string,
    facilityName: string,
    noteText: string,
    createdBy: string,
    noteDate: string)
}
