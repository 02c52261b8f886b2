/**
 The timetable entities the solver reads (models.py), reduced to the fields
 the solver consults, and the record `load_context` hands to the builder.
 */
module Timetable {
  import opened Wrappers

  /** `RoomType` and `SubjectType`: two string enums with the same members,
      compared with each other by value. */
  datatype Kind = Theory | Lab

  datatype ClassGroup = ClassGroup(id: int, size: int)

  datatype Subject = Subject(id: int, kind: Kind, hoursPerWeek: int)

  datatype Room = Room(id: int, capacity: int, kind: Kind)

  /** Only the id and the lunch flag are read; the day and slot index serve
      the sort that produces `slot_list`, which is taken as given. */
  datatype Timeslot = Timeslot(id: int, isLunch: bool)

  /** One class taking one subject from one teacher; `requiredHours` is
      nullable. */
  datatype ClassSubject = ClassSubject(classId: int, subjectId: int, teacherId: int, requiredHours: Option<int>)

  /** The `ctx` dictionary: classes and subjects by id, rooms in the
      iteration order of the id-keyed dictionary, timeslots already sorted by
      `(day, slot_index)`, and the class-subject mappings in table order. */
  datatype Context = Context(
    classes: map<int, ClassGroup>,
    subjects: map<int, Subject>,
    rooms: seq<Room>,
    slotList: seq<Timeslot>,
    maps: seq<ClassSubject>)

  /** A CSP variable `(class_id, subject_id, teacher_id, session_index)`. */
  datatype Var = Var(classId: int, subjectId: int, teacherId: int, session: int)

  /** A CSP value `(slot_id, room_id)`. */
  datatype Placement = Placement(slotId: int, roomId: int)

  /** Referential integrity: every mapping names a known class and subject
      (the builder indexes both dictionaries without a guard). */
  ghost predicate WellFormed(ctx: Context)
  {
    forall m | m in ctx.maps :: m.classId in ctx.classes && m.subjectId in ctx.subjects
  }
}
