/**
  The entities an appointment refers to, as values.

  A Java reference that may be null is an `Option`; the string and
  timestamp fields are never null here (see README, "Left out").
  `LocalDateTime` becomes an integer timestamp: the controller only
  compares two of them with `isEqual` and `isBefore`, which are the
  comparisons of a total order.
 */
module Entities {

  datatype Option<+T> = None | Some(value: T)

  /** A point in time; only its order matters. */
  type Timestamp = int

  datatype Patient = Patient(firstName: string, lastName: string, age: int, email: string)

  datatype Doctor = Doctor(firstName: string, lastName: string, age: int, email: string)

  /** A room is identified by its name. */
  datatype Room = Room(roomName: string)

  datatype Appointment = Appointment(
    id: int,
    patient: Option<Patient>,
    doctor: Option<Doctor>,
    room: Option<Room>,
    startsAt: Timestamp,
    finishesAt: Timestamp
  )

  /** The HTTP statuses the controller answers with. */
  datatype HttpStatus = Ok | NoContent | BadRequest | NotFound | NotAcceptable

  /**
    `existing.overlaps(candidate)`: the entity's own overlap test, whose
    body is not part of this model. The first argument is the receiver
    (an appointment already stored), the second the candidate.
    Nothing is assumed about it, not even symmetry.
   */
  type OverlapRelation = (Appointment, Appointment) -> bool
}
