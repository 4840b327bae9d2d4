/** The optional value of the model: a dictionary lookup that may miss, a guard that may pass. */
module Optional {

  datatype Option<+T> = None | Some(value: T)
}
