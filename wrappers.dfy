/** The Option type that `parse_udp_packet` returns: `None` is a silent rejection. */
module Wrappers {

  datatype Option<+T> = None | Some(value: T)
}
