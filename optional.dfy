/** The absent-or-present value that stands for the C# code's `null` results. */
module Optional {
  datatype Option<+T> = None | Some(value: T)
}
