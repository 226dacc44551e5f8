/** Packets on the endpoints of the HID devices, and how `handle_data` answers them. */
module Usb {

  datatype Token = In | Out | Setup

  datatype Packet = Packet(token: Token, endpoint: nat, size: nat)

  datatype Answer<T> = Stall | Nak | Data(value: T)
}
