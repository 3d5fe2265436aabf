/** Types shared by the other modules. */
module Common {
  datatype Option<+T> = None | Some(value: T)

  type Byte = b: int | 0 <= b < 256
  type Bytes = seq<Byte>

  /** A file that is written as a whole: absent, holding a value, or left torn,
      with a proper prefix of the text, which no reader accepts. */
  datatype File<T> = Absent | Holding(value: T) | Torn

  /** How a whole-file write goes: the file cannot be opened, the write fails after
      the file has been truncated, all is written but closing reports an error, or
      all goes well. */
  datatype DiskOutcome = NotOpened | Interrupted | NotClosed | Completed

  function AfterWrite<T>(before: File<T>, value: T, disk: DiskOutcome): File<T> {
    match disk
    case NotOpened => before
    case Interrupted => Torn
    case _ => Holding(value)
  }

  lemma ConcatAssociative<T>(a: seq<T>, b: seq<T>, c: seq<T>)
    ensures a + b + c == a + (b + c)
  {
  }

  lemma UnionAssociative<T>(a: set<T>, b: set<T>, c: set<T>)
    ensures a + b + c == a + (b + c)
  {
  }

  lemma DisjointUnionSize<T>(a: set<T>, b: set<T>)
    requires a !! b
    ensures |a + b| == |a| + |b|
  {
  }
}
