/** The one error type of the protocol crate. */
module Proto {
  import opened Words

  datatype ProtoError =
    | OutputTooSmall(need: nat, have: nat)
    | Short(need: nat, have: nat)
    | UnknownReport(id: u8)
    | BadPad(pad: u8)
}
