/** The task record of the application and the 32-bit integer its id is. */
module ToDoRecord {

  const INT32_MIN: int := -0x8000_0000
  const INT32_MAX: int := 0x7FFF_FFFF

  /** Kotlin's `Int`: a signed 32-bit integer. */
  newtype int32 = x: int | -0x8000_0000 <= x <= 0x7FFF_FFFF

  /** `x++` on a Kotlin `Int`: two's-complement wrap-around at the top of the range. */
  function Inc32(x: int32): (r: int32)
    ensures x as int < INT32_MAX ==> r as int == x as int + 1
    ensures x as int == INT32_MAX ==> r as int == INT32_MIN
  {
    if x == 0x7FFF_FFFF then -0x8000_0000 else x + 1
  }

  /** One to-do entry. */
  datatype ToDo = ToDo(id: int32, title: string, description: string, isCompleted: bool)
}
