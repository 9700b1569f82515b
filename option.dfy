/**
 * The optional value used by the models whose steps can be refused: a
 * protocol step the system cannot take, a message a fork does not accept.
 */
module Optional {

  datatype Option<T> = None | Some(value: T)
}
