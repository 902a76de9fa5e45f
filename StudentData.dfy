/**
 * The `StudentData` record. Every field is a scalar or a string, so a
 * field-wise copy is a complete, independent value: the record is a datatype.
 */
module Models {
  import opened Errors

  /**
   * The year of study. The enumeration itself is not part of this model's
   * sources; it is taken to list four years in their natural order, `First`
   * being the declared default.
   */
  datatype CourseYear = First | Second | Third | Fourth {
    /** The position in the declaration, which is also the enum's sort order. */
    function Rank(): nat {
      match this
      case First => 0
      case Second => 1
      case Third => 2
      case Fourth => 3
    }
  }

  /**
   * A `double`, by IEEE 754 class: a finite value (rounding is not
   * modelled), not-a-number, or an infinity.
   */
  datatype Double = Finite(value: real) | NaN | PositiveInfinity | NegativeInfinity

  /** `DateTime` (the calendar date only), as a day number. */
  type Date = int

  /** `TimeSpan`, as a number of minutes. */
  type Duration = int

  datatype StudentData = StudentData(
    id: Guid,
    ownerUsername: string,
    fullName: string,
    group: string,
    email: string,
    rating: Double,
    enrollmentDate: Date,
    enrollmentTime: Duration,
    receivesScholarship: bool,
    currentCourseYear: CourseYear,
    photoBase64: string)

  /**
   * The parameterless constructor: a fresh `Id` (`newId` stands for
   * `Guid.NewGuid()`), today's date (`today` stands for `DateTime.Today`),
   * every other field at its default.
   */
  function NewStudentData(newId: Guid, today: Date): (r: StudentData)
    ensures r.id == newId && r.enrollmentDate == today
    ensures r.ownerUsername == [] && r.fullName == [] && r.group == [] && r.email == []
    ensures r.rating == Finite(0.0) && r.enrollmentTime == 0 && !r.receivesScholarship
    ensures r.currentCourseYear == First && r.photoBase64 == []
  {
    StudentData(newId, [], [], [], [], Finite(0.0), today, 0, false, First, [])
  }

  /** The three-argument constructor. */
  function NewStudentDataFor(newId: Guid, today: Date, ownerUsername: string, fullName: string, group: string): (r: StudentData)
    ensures r.id == newId
    ensures r.ownerUsername == ownerUsername && r.fullName == fullName && r.group == group
    ensures r.enrollmentDate == today && r.currentCourseYear == First
  {
    NewStudentData(newId, today).(ownerUsername := ownerUsername, fullName := fullName, group := group)
  }
}
