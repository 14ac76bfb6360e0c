# Clinic appointment admission, modelled in Dafny

This project models `AppointmentController` of a clinic booking backend. The
backend stores doctors, patients, rooms and appointments. The one piece of
real logic is the admission gate in `createAppointment`. It runs three checks
in a fixed order:

1. The field check (`areRequiredFieldsNull`). The patient, doctor and room
   must be present. Every required name, email and room name must be
   non-blank after `trim()`. The patient's age must be at least 0 and the
   doctor's at least 18.
2. The date check (`areConflictBetweenDates`). `finishesAt` must come after
   `startsAt`.
3. The overlap scan (`isAppointmentsOverlap`). No stored appointment may
   `overlaps` the candidate.

Failing check 1 or 2 answers BAD_REQUEST. Failing check 3 answers
NOT_ACCEPTABLE. Otherwise the candidate is saved once and the answer is OK.
The other handlers list, fetch and delete appointments over the repository.

Files:

- `entities.dfy` (module `Entities`): Patient, Doctor, Room and Appointment
  as values. A reference that Java allows to be null is an `Option`.
  `LocalDateTime` is an integer timestamp. `HttpStatus` holds the statuses
  the controller answers with. `OverlapRelation` is the type of
  `Appointment.overlaps`.
- `java_text.dfy` (module `JavaText`): `String.trim()`. It strips leading
  and trailing characters at or below U+0020. `IsBlank` is
  `trim().isEmpty()`.
- `admission_rules.dfy` (module `AdmissionRules`): the three checks as
  functions, and `Admission`, the outcome they give. It also holds a
  reference definition `WellFormed` that states the entity invariants
  without `trim()`, and the lemmas about the gate.
- `repository.dfy` (module `Repository`): an in-memory
  `AppointmentRepository`. Its rows are a sequence in insertion order. Ids
  are unique. A ghost trace records every call made on the repository.
- `controller.dfy` (module `Controller`): the class `AppointmentController`
  with one method per request handler.

`Appointment.overlaps` is defined in the entity class, which is not part of
this model. The model takes it as an uninterpreted `OverlapRelation`, given
to the controller when it is built. It is applied as
`overlaps(stored, candidate)`, the stored appointment being the receiver as
in the stream filter. Nothing is assumed about it, not even symmetry.

## Model

| member | source | states |
|---|---|---|
| `JavaText.Trim` | src/main/java/com/example/demo/controllers/AppointmentController.java:92-106 | `trim()` returns a slice `s[a..b]` of its input with every character before `a` and from `b` on at or below U+0020, inner characters kept; the result is empty exactly when every character is at or below U+0020, and otherwise starts and ends with a character above U+0020 |
| `JavaText.IsBlank` | src/main/java/com/example/demo/controllers/AppointmentController.java:92-106 | `trim().isEmpty()` holds exactly when every character of the string is at or below U+0020 |
| `AdmissionRules.AreRequiredFieldsNull` | src/main/java/com/example/demo/controllers/AppointmentController.java:85-111 | a missing patient, doctor or room makes the check fail; the check fails exactly when the appointment is not `WellFormed` (a reference missing, a blank first name, last name, email or room name, a patient age below 0 or a doctor age below 18) |
| `AdmissionRules.AreConflictBetweenDates` | src/main/java/com/example/demo/controllers/AppointmentController.java:113-116 | the check is true exactly when `finishesAt <= startsAt`, so equal timestamps are rejected too |
| `AdmissionRules.FindFirstOverlap` | src/main/java/com/example/demo/controllers/AppointmentController.java:119-121 | the element `filter(...).findFirst()` yields is the first stored appointment, in list order, that overlaps the candidate: it sits at some position `n`, overlaps, and no earlier element overlaps; there is none exactly when no stored appointment overlaps |
| `AdmissionRules.IsAppointmentsOverlap` | src/main/java/com/example/demo/controllers/AppointmentController.java:118-123 | true exactly when some stored `e` has `e.overlaps(candidate)`; false for an empty list |
| `AdmissionRules.Admission` | src/main/java/com/example/demo/controllers/AppointmentController.java:47-61 | the outcome is OK, BAD_REQUEST or NOT_ACCEPTABLE; BAD_REQUEST exactly when the candidate is not well-formed or its interval is empty or inverted; NOT_ACCEPTABLE exactly when it passes both and some stored appointment overlaps it; OK exactly when it passes both and none does |
| `AdmissionRules.OverlapIgnoresOrder` | src/main/java/com/example/demo/controllers/AppointmentController.java:118-123 | two lists holding the same appointments (as multisets) give the same overlap answer, whatever their order |
| `AdmissionRules.AdmissionIgnoresOrder` | src/main/java/com/example/demo/controllers/AppointmentController.java:55-56 | the admission outcome does not depend on the order `findAll()` returns the stored appointments in |
| `AdmissionRules.BadRequestIgnoresRepository` | src/main/java/com/example/demo/controllers/AppointmentController.java:49-53 | a BAD_REQUEST outcome is the same whatever is stored |
| `AdmissionRules.DoctorAgeThreshold` | src/main/java/com/example/demo/controllers/AppointmentController.java:99-103 | with all other fields well-formed, a doctor aged 17 fails the field check and one aged 18 passes it |
| `AdmissionRules.ZeroLengthRejected` | src/main/java/com/example/demo/controllers/AppointmentController.java:52-53 | a candidate whose start equals its finish gets BAD_REQUEST |
| `Repository.Lookup` | src/main/java/com/example/demo/controllers/AppointmentController.java:38 | `findById` finds a stored appointment with the id, and finds nothing exactly when no stored appointment has it |
| `Repository.Without` | src/main/java/com/example/demo/controllers/AppointmentController.java:73 | after `deleteById` the store holds exactly the appointments that were stored and have another id |
| `Repository.WithoutKeepsUniqueIds` | src/main/java/com/example/demo/controllers/AppointmentController.java:73 | deleting by id keeps stored ids unique |
| `Repository.WithoutAbsentId` | src/main/java/com/example/demo/controllers/AppointmentController.java:67-73 | deleting an id that `findById` does not find changes nothing |
| `Repository.WithoutRemovesExactlyOne` | src/main/java/com/example/demo/controllers/AppointmentController.java:64-77 | with unique ids, deleting a stored id removes exactly the one appointment `findById` finds, as multisets |
| `Repository.SaveCountAppend` | src/main/java/com/example/demo/controllers/AppointmentController.java:49-60 | proof support for the call trace, not a model of `save` itself: the number of `save` calls adds up over concatenated traces, which lets `CreateAppointment` state that its paths through lines 49-60 call `save` once on OK and never otherwise |
| `Repository.AppointmentRepository.FindAll` | src/main/java/com/example/demo/controllers/AppointmentController.java:27 | returns every stored appointment in order; only the call trace changes |
| `Repository.AppointmentRepository.FindById` | src/main/java/com/example/demo/controllers/AppointmentController.java:38 | returns `Lookup` of the stored rows; only the call trace changes |
| `Repository.AppointmentRepository.Save` | src/main/java/com/example/demo/controllers/AppointmentController.java:58 | appends the candidate under a fresh id and keeps ids unique |
| `Repository.AppointmentRepository.DeleteById` | src/main/java/com/example/demo/controllers/AppointmentController.java:73 | the rows become `Without(old rows, id)`; ids stay unique |
| `Repository.AppointmentRepository.DeleteAll` | src/main/java/com/example/demo/controllers/AppointmentController.java:81 | the rows become empty |
| `Controller.AppointmentController.GetAllAppointments` | src/main/java/com/example/demo/controllers/AppointmentController.java:23-34 | NO_CONTENT with no body exactly when nothing is stored, otherwise OK with every stored appointment in `findAll()` order; the rows are unchanged and the only call is one `findAll` |
| `Controller.AppointmentController.GetAppointmentById` | src/main/java/com/example/demo/controllers/AppointmentController.java:36-45 | NOT_FOUND with no body exactly when no stored appointment has the id, otherwise OK with a stored appointment with that id; the rows are unchanged |
| `Controller.AppointmentController.CreateAppointment` | src/main/java/com/example/demo/controllers/AppointmentController.java:47-61 | the status is `Admission` of the candidate against the stored rows; BAD_REQUEST makes no repository call at all; NOT_ACCEPTABLE makes one `findAll` and changes nothing; OK makes one `findAll` then exactly one `save`, and the store becomes its old rows plus the candidate under a fresh id; `save` is called once if the answer is OK and otherwise never |
| `Controller.AppointmentController.DeleteAppointment` | src/main/java/com/example/demo/controllers/AppointmentController.java:64-77 | NOT_FOUND exactly when no stored appointment has the id, and then the rows are unchanged and nothing is deleted; otherwise OK, and exactly the appointment with that id is removed |
| `Controller.AppointmentController.DeleteAllAppointments` | src/main/java/com/example/demo/controllers/AppointmentController.java:79-83 | answers OK and leaves the store empty |

## Left out

- The HTTP layer is not modelled: Spring annotations, routing, JSON binding and `ResponseEntity` construction. A handler returns its status as `HttpStatus` plus its body, if it has one.
- Null strings and timestamps are not modelled. Strings are `seq<char>` and timestamps are integers, so a present patient, doctor or room always has non-null strings, and both timestamps are always present. In Java, a null name, email, room name, `startsAt` or `finishesAt` throws a NullPointerException at lines 92-106 or 115. That exception is not a BAD_REQUEST, and here it cannot occur.
- The body of `Appointment.overlaps` is not modelled. The entity class is not part of this model, so the relation is a parameter of the controller. Nothing is proved about which pairs of appointments overlap, such as room scoping or interval intersection.
- The check-then-act race is not modelled. Two concurrent requests can both pass the scan at line 55 before either `save` at line 58. The model is sequential.
- Repository internals are abstracted. `Save` always assigns the next fresh id and ignores any id the candidate carries. The persistence layer's merge of an already-used id, and its own id generator, are not modelled.
- Ids are unbounded integers. Java's `long` overflow is not modelled, since ids come from a counter that does not reach it.
- The patient's and doctor's own ids are left out. The controller never reads them.
- The test files are not modelled. They exercise the framework wiring of the other controllers and persistence behaviour.
- `areRequiredFieldsNull` returns a single boolean and does not say which field failed; `AdmissionRules.AreRequiredFieldsNull` is a boolean too.
- `createAppointment` answers OK with no body and does not return the stored appointment; `Controller.AppointmentController.CreateAppointment` returns only the status.
