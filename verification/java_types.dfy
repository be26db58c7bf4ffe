/**
 * Java values shared by the message entity, the immutable message and the
 * create-message controller: nullable references, 32-bit `int` with its
 * wrap-around, and the collaborator types whose classes are not modelled.
 */
module JavaTypes {

  /** A nullable Java reference: `None` is `null`. */
  datatype Option<+T> = None | Some(value: T)

  /** Java's `int`: a 32-bit two's-complement integer. */
  newtype int32 = x: int | -0x8000_0000 <= x < 0x8000_0000

  const TwoTo32: int := 0x1_0000_0000

  /** Java's `int` arithmetic: the result of an operation keeps only its low 32 bits. */
  function Wrap(x: int): (r: int32)
    ensures (r as int - x) % TwoTo32 == 0
    ensures -0x8000_0000 <= x < 0x8000_0000 ==> r as int == x
  {
    (((x + 0x8000_0000) % TwoTo32) - 0x8000_0000) as int32
  }

  /**
   * A user account. User.java is not part of this model: a user is an
   * opaque value, `Objects.equals` on users is value equality and
   * `User.hashCode` is a parameter wherever a hash is computed.
   */
  datatype User = User(userId: int, username: string)

  /** `LocalDateTime`, reduced to a point in time. */
  type LocalDateTime = int

  /** Java string concatenation of a possibly-null `String`: `null` prints as "null". */
  function JavaString(s: Option<string>): string
  {
    match s
    case Some(v) => v
    case None => "null"
  }
}
