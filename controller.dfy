/**
  `AppointmentController`: the request handlers over the appointment
  repository. Each handler is a method on the controller; what it answers
  and what it does to the repository (its rows and the calls made on it)
  are stated in its postconditions.
 */
module Controller {
  import opened Entities
  import opened AdmissionRules
  import opened Repository

  class AppointmentController {
    const repository: AppointmentRepository
    /** The `Appointment.overlaps` test the admission scan applies. */
    const overlaps: OverlapRelation

    constructor (repository: AppointmentRepository, overlaps: OverlapRelation)
      ensures this.repository == repository && this.overlaps == overlaps
    {
      this.repository := repository;
      this.overlaps := overlaps;
    }

    /**
      `getAllAppointments`: every stored appointment, in `findAll()` order,
      with OK, or NO_CONTENT and no body when nothing is stored.
     */
    method GetAllAppointments() returns (status: HttpStatus, body: seq<Appointment>)
      requires repository.Valid()
      modifies repository`calls
      ensures status == NoContent <==> repository.rows == []
      ensures status == Ok <==> repository.rows != []
      ensures status == Ok ==> body == repository.rows
      ensures status == NoContent ==> body == []
      ensures repository.calls == old(repository.calls) + [FindAllCall]
    {
      var found := repository.FindAll();
      var appointments: seq<Appointment> := [];
      for i := 0 to |found|
        invariant appointments == found[..i]
      {
        appointments := appointments + [found[i]];
      }
      assert found[..|found|] == found;
      if appointments == [] {
        return NoContent, [];
      }
      return Ok, appointments;
    }

    /** `getAppointmentById`: the appointment with OK, or NOT_FOUND. */
    method GetAppointmentById(id: int) returns (status: HttpStatus, body: Option<Appointment>)
      requires repository.Valid()
      modifies repository`calls
      ensures status == NotFound <==> forall e :: e in repository.rows ==> e.id != id
      ensures status == Ok || status == NotFound
      ensures status == Ok ==> body.Some? && body.value in repository.rows && body.value.id == id
      ensures status == NotFound ==> body.None?
      ensures repository.calls == old(repository.calls) + [FindByIdCall(id)]
    {
      var appointment := repository.FindById(id);
      if appointment.Some? {
        return Ok, appointment;
      } else {
        return NotFound, None;
      }
    }

    /**
      `createAppointment`: the admission gate. The outcome is the one the
      three checks classify the candidate into. A request rejected by the
      field or date check never touches the repository; one rejected by
      the overlap scan only reads it; only an admitted one calls `save`,
      exactly once, and then the store holds its previous contents plus
      the candidate under a fresh id.
     */
    method CreateAppointment(appointment: Appointment) returns (status: HttpStatus)
      requires repository.Valid()
      modifies repository
      ensures repository.Valid()
      ensures status == Admission(appointment, old(repository.rows), overlaps)
      ensures status == BadRequest ==> repository.calls == old(repository.calls)
      ensures status == NotAcceptable ==> repository.calls == old(repository.calls) + [FindAllCall]
      ensures status == Ok ==> repository.calls == old(repository.calls) + [FindAllCall, SaveCall(appointment)]
      ensures SaveCount(repository.calls) == SaveCount(old(repository.calls)) + (if status == Ok then 1 else 0)
      ensures status == Ok ==>
        && repository.rows == old(repository.rows) + [appointment.(id := old(repository.nextId))]
        && repository.nextId == old(repository.nextId) + 1
      ensures status != Ok ==>
        repository.rows == old(repository.rows) && repository.nextId == old(repository.nextId)
    {
      ghost var before := repository.calls;
      if AreRequiredFieldsNull(appointment) {
        SaveCountAppend(before, []);
        return BadRequest;
      }
      if AreConflictBetweenDates(appointment.startsAt, appointment.finishesAt) {
        SaveCountAppend(before, []);
        return BadRequest;
      }
      var existing := repository.FindAll();
      if IsAppointmentsOverlap(existing, appointment, overlaps) {
        SaveCountAppend(before, [FindAllCall]);
        return NotAcceptable;
      }
      var _ := repository.Save(appointment);
      SaveCountAppend(before, [FindAllCall, SaveCall(appointment)]);
      return Ok;
    }

    /**
      `deleteAppointment`: NOT_FOUND, and nothing deleted, when no stored
      appointment has the id; otherwise exactly that appointment is
      removed and the answer is OK.
     */
    method DeleteAppointment(id: int) returns (status: HttpStatus)
      requires repository.Valid()
      modifies repository`rows, repository`calls
      ensures repository.Valid()
      ensures status == Ok || status == NotFound
      ensures status == NotFound <==> forall e :: e in old(repository.rows) ==> e.id != id
      ensures status == NotFound ==>
        && repository.rows == old(repository.rows)
        && repository.calls == old(repository.calls) + [FindByIdCall(id)]
      ensures status == Ok ==>
        && repository.rows == Without(old(repository.rows), id)
        && multiset(repository.rows) == multiset(old(repository.rows)) - multiset{Lookup(old(repository.rows), id).value}
        && repository.calls == old(repository.calls) + [FindByIdCall(id), DeleteByIdCall(id)]
    {
      var appointment := repository.FindById(id);
      if appointment.None? {
        return NotFound;
      }
      WithoutRemovesExactlyOne(repository.rows, id);
      repository.DeleteById(id);
      return Ok;
    }

    /** `deleteAllAppointments`: the store is left empty; the answer is OK. */
    method DeleteAllAppointments() returns (status: HttpStatus)
      requires repository.Valid()
      modifies repository`rows, repository`calls
      ensures repository.Valid()
      ensures status == Ok
      ensures repository.rows == []
      ensures repository.calls == old(repository.calls) + [DeleteAllCall]
    {
      repository.DeleteAll();
      return Ok;
    }
  }
}
