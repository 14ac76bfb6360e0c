/**
  The pure half of `AppointmentController`: the three checks that
  `createAppointment` runs before it saves anything, and the outcome they
  classify an admission attempt into.
 */
module AdmissionRules {
  import opened Entities
  import opened JavaText

  // ---------------------------------------------------------------------
  // Reference definitions: what a well-formed appointment is, stated
  // without `trim()` and without the order in which the code checks.
  // ---------------------------------------------------------------------

  /** The string holds a character above U+0020. */
  ghost predicate HasText(s: string) {
    exists k :: 0 <= k < |s| && s[k] > ' '
  }

  ghost predicate PatientWellFormed(p: Patient) {
    HasText(p.firstName) && HasText(p.lastName) && HasText(p.email) && p.age >= 0
  }

  ghost predicate DoctorWellFormed(d: Doctor) {
    HasText(d.firstName) && HasText(d.lastName) && HasText(d.email) && d.age >= 18
  }

  ghost predicate RoomWellFormed(r: Room) {
    HasText(r.roomName)
  }

  /** All three references present, and each referenced entity well-formed. */
  ghost predicate WellFormed(a: Appointment) {
    && a.patient.Some? && PatientWellFormed(a.patient.value)
    && a.doctor.Some? && DoctorWellFormed(a.doctor.value)
    && a.room.Some? && RoomWellFormed(a.room.value)
  }

  // ---------------------------------------------------------------------
  // The checks, as the controller writes them.
  // ---------------------------------------------------------------------

  /**
    `areRequiredFieldsNull`: true when a reference is missing, or a
    required string is blank after `trim()`, or an age is out of range.
    It reports failure exactly when the appointment is not well-formed.
   */
  function AreRequiredFieldsNull(a: Appointment): (r: bool)
    ensures a.patient.None? || a.doctor.None? || a.room.None? ==> r
    ensures r <==> !WellFormed(a)
  {
    if a.patient.None? || a.doctor.None? || a.room.None? then
      true
    else
      var p, d, room := a.patient.value, a.doctor.value, a.room.value;
      if IsBlank(p.firstName) || IsBlank(p.lastName) || IsBlank(p.email) || p.age < 0 then
        true
      else if IsBlank(d.firstName) || IsBlank(d.lastName) || IsBlank(d.email) || d.age < 18 then
        true
      else if IsBlank(room.roomName) then
        true
      else
        false
  }

  /**
    `areConflictBetweenDates(startsAt, finishesAt)`: the two are equal or
    the finish comes before the start, that is, the interval is empty or
    inverted.
   */
  function AreConflictBetweenDates(date1: Timestamp, date2: Timestamp): (r: bool)
    ensures r <==> date2 <= date1
    ensures !r <==> date1 < date2
  {
    date1 == date2 || date2 < date1
  }

  /**
    The position of the first stored appointment, at or after `i`, that
    overlaps the candidate, or `|appointments|` when there is none: the
    element `filter(...).findFirst()` would produce.
   */
  function FirstOverlapFrom(appointments: seq<Appointment>, appointment: Appointment,
                            overlaps: OverlapRelation, i: nat): (n: nat)
    requires i <= |appointments|
    ensures i <= n <= |appointments|
    ensures forall j :: i <= j < n ==> !overlaps(appointments[j], appointment)
    ensures n < |appointments| ==> overlaps(appointments[n], appointment)
    decreases |appointments| - i
  {
    if i == |appointments| then i
    else if overlaps(appointments[i], appointment) then i
    else FirstOverlapFrom(appointments, appointment, overlaps, i + 1)
  }

  /**
    `appointments.stream().filter(e -> e.overlaps(appointment)).findFirst()`:
    the first stored appointment that overlaps the candidate, if any.
   */
  function FindFirstOverlap(appointments: seq<Appointment>, appointment: Appointment,
                            overlaps: OverlapRelation): (r: Option<Appointment>)
    ensures r.Some? ==> r.value in appointments && overlaps(r.value, appointment)
    ensures r.Some? ==>
      exists n :: 0 <= n < |appointments| && appointments[n] == r.value
        && forall j :: 0 <= j < n ==> !overlaps(appointments[j], appointment)
    ensures r.None? <==> forall e :: e in appointments ==> !overlaps(e, appointment)
  {
    var n := FirstOverlapFrom(appointments, appointment, overlaps, 0);
    if n < |appointments| then Some(appointments[n]) else None
  }

  /**
    `isAppointmentsOverlap`: some stored appointment overlaps the
    candidate. False for an empty list.
   */
  function IsAppointmentsOverlap(appointments: seq<Appointment>, appointment: Appointment,
                                 overlaps: OverlapRelation): (r: bool)
    ensures r <==> exists e :: e in appointments && overlaps(e, appointment)
    ensures appointments == [] ==> !r
  {
    FindFirstOverlap(appointments, appointment, overlaps).Some?
  }

  /**
    The outcome of `createAppointment` for a candidate, given the
    appointments already stored: the three checks in their fixed order.
   */
  function Admission(appointment: Appointment, existing: seq<Appointment>,
                     overlaps: OverlapRelation): (status: HttpStatus)
    ensures status == Ok || status == BadRequest || status == NotAcceptable
    ensures status == BadRequest <==>
      !WellFormed(appointment) || appointment.finishesAt <= appointment.startsAt
    ensures status == NotAcceptable <==>
      && WellFormed(appointment) && appointment.startsAt < appointment.finishesAt
      && exists e :: e in existing && overlaps(e, appointment)
    ensures status == Ok <==>
      && WellFormed(appointment) && appointment.startsAt < appointment.finishesAt
      && forall e :: e in existing ==> !overlaps(e, appointment)
  {
    if AreRequiredFieldsNull(appointment) then BadRequest
    else if AreConflictBetweenDates(appointment.startsAt, appointment.finishesAt) then BadRequest
    else if IsAppointmentsOverlap(existing, appointment, overlaps) then NotAcceptable
    else Ok
  }

  // ---------------------------------------------------------------------
  // Properties of the gate.
  // ---------------------------------------------------------------------

  /**
    The overlap scan depends only on which appointments are stored, not on
    the order `findAll()` lists them in.
   */
  lemma OverlapIgnoresOrder(l1: seq<Appointment>, l2: seq<Appointment>,
                            appointment: Appointment, overlaps: OverlapRelation)
    requires multiset(l1) == multiset(l2)
    ensures IsAppointmentsOverlap(l1, appointment, overlaps) == IsAppointmentsOverlap(l2, appointment, overlaps)
  {
    forall e | e in l1 ensures e in l2 {
      assert e in multiset(l1);
    }
    forall e | e in l2 ensures e in l1 {
      assert e in multiset(l2);
    }
  }

  /** Hence the whole admission outcome does not depend on that order either. */
  lemma AdmissionIgnoresOrder(appointment: Appointment, l1: seq<Appointment>, l2: seq<Appointment>,
                              overlaps: OverlapRelation)
    requires multiset(l1) == multiset(l2)
    ensures Admission(appointment, l1, overlaps) == Admission(appointment, l2, overlaps)
  {
    OverlapIgnoresOrder(l1, l2, appointment, overlaps);
  }

  /**
    A rejection for malformed fields or dates does not depend on the stored
    appointments at all: the repository need not be consulted.
   */
  lemma BadRequestIgnoresRepository(appointment: Appointment, l1: seq<Appointment>, l2: seq<Appointment>,
                                    overlaps: OverlapRelation)
    requires Admission(appointment, l1, overlaps) == BadRequest
    ensures Admission(appointment, l2, overlaps) == BadRequest
  {
  }

  /**
    The doctor's age threshold: with every other field well-formed, a
    doctor aged 17 is rejected by the field check and one aged 18 passes it.
   */
  lemma DoctorAgeThreshold(appointment: Appointment)
    requires WellFormed(appointment)
    ensures AreRequiredFieldsNull(appointment.(doctor := Some(appointment.doctor.value.(age := 17))))
    ensures !AreRequiredFieldsNull(appointment.(doctor := Some(appointment.doctor.value.(age := 18))))
  {
  }

  /** Equal start and finish timestamps are rejected. */
  lemma ZeroLengthRejected(appointment: Appointment, existing: seq<Appointment>, overlaps: OverlapRelation)
    requires appointment.startsAt == appointment.finishesAt
    ensures Admission(appointment, existing, overlaps) == BadRequest
  {
  }
}
