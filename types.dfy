/** Values shared by the interface and gateway lookups: the InterfaceInfo
    record, the error values, and the Option/Result wrappers that stand for
    Go's (value, error) pairs and nil results. */
module NetTypes {

  newtype uint8 = x: int | 0 <= x < 0x100

  /** Go's net.HardwareAddr: a byte slice; nil is the empty sequence. */
  type HardwareAddr = seq<uint8>

  /** Go's net.IP: a byte slice; nil is the empty sequence. */
  type IP = seq<uint8>

  datatype Option<+T> = None | Some(value: T)

  /** The failures the lookups report. Go formats them as wrapped error
      strings; here each is a tag carrying the data the message names. */
  datatype Error =
    | InterfaceNotFound(name: string)   // net.InterfaceByName failed
    | AddrsUnavailable(name: string)    // Interface.Addrs failed
    | CidrParseFailed                   // net.ParseCIDR failed on an address entry
    | ReadFailed                        // /proc/net/arp could not be read
    | MacParseFailed(field: string)     // net.ParseMAC rejected field 3 of an ARP row
    | IpParseFailed(field: string)      // net.ParseIP rejected field 0 of an ARP row

  datatype Result<+T> = Ok(value: T) | Err(error: Error)

  /** Name, link-layer address and IP of an interface (or of a gateway). */
  datatype InterfaceInfo = InterfaceInfo(name: string, hardAddr: HardwareAddr, ip: IP)

  /** Go's zero value InterfaceInfo{}: every field empty. */
  const EmptyInfo: InterfaceInfo := InterfaceInfo("", [], [])
}
