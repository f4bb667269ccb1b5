/** The conventional optional value, used for decoders that may reject their input
    and for the optional fields of the menu markup. */
module Wrappers {

  datatype Option<+T> = None | Some(value: T)
}
