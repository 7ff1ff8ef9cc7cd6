/** The optional value used where the modelled program can fail: a `None`
    stands for a run-time panic of the program (an index out of range), a
    `Some` for the value it computes when it does not panic. */
module Optional {

  datatype Option<+T> = None | Some(value: T)
}
