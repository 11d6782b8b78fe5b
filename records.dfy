/** The three record kinds of Server.go (Teacher, Student, Staff) as one
    datatype.  Every kind carries an `id`; `r.id` is `GetId()`.  The per-record
    `mutex` channel is not modelled (operations are atomic here). */
module Records {

  /** A Go `float64` salary, kept as its IEEE 754 bit pattern: the core never
      computes with it, it only stores and echoes it. */
  datatype Float64 = Float64(bits: bv64)

  /** The embedded `Person` struct. */
  datatype Person = Person(name: string, surname: string, personalCode: string)

  datatype Kind = TeacherKind | StudentKind | StaffKind

  datatype Record =
    | Teacher(id: string, subject: string, salary: Float64, classroom: seq<string>, person: Person)
    | Student(id: string, schoolClass: string, person: Person)
    | Staff(id: string, salary: Float64, room: string, phone: string, person: Person)

  /** The dynamic type a Go type assertion such as `.(Teacher)` tests. */
  function KindOf(r: Record): Kind
  {
    match r
    case Teacher(_, _, _, _, _) => TeacherKind
    case Student(_, _, _) => StudentKind
    case Staff(_, _, _, _, _) => StaffKind
  }

  /** The object name a client writes in the envelope, which is also the
      word the result messages start with. */
  function KindName(k: Kind): string
  {
    match k
    case TeacherKind => "Teacher"
    case StudentKind => "Student"
    case StaffKind => "Staff"
  }

  /** The zero value of the kind's struct (`Teacher{}` and so on). */
  function ZeroRecord(k: Kind): (r: Record)
    ensures KindOf(r) == k && r.id == ""
  {
    var none := Person("", "", "");
    match k
    case TeacherKind => Teacher("", "", Float64(0), [], none)
    case StudentKind => Student("", "", none)
    case StaffKind => Staff("", Float64(0), "", "", none)
  }

  /** The same record with its identity replaced, every other field kept. */
  function WithId(r: Record, id: string): (r': Record)
    ensures r'.id == id && KindOf(r') == KindOf(r)
    ensures r'.(id := r.id) == r
  {
    r.(id := id)
  }
}
