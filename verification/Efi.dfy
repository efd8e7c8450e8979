/** EFI_STATUS, as far as the modelled drivers use it. */
module Efi {
  datatype EfiStatus =
    | Success
    | InvalidParameter
    | Unsupported
    | BadBufferSize
    | NotReady
    | OutOfResources
    | NotFound
    | Aborted
    | DeviceError
    | ProtocolError
  {
    predicate IsError() { !Success? }
  }

  datatype Option<+T> = None | Some(value: T)
}
