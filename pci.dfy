/** The part of the hardware-enumeration library's PCI device record that the
    naming code reads: each of vendor, product, class and subclass carries a
    numeric ID and a database name. */
module Pci {

  /** The library's sentinel for a name the PCI database does not know. */
  const UNKNOWN: string := "unknown"

  /** An `{ID, Name}` pair (vendor, product, class or subclass). */
  datatype Ident = Ident(id: string, name: string)

  datatype Device = Device(
    address: string,
    vendor: Ident,
    product: Ident,
    deviceClass: Ident,
    subclass: Ident,
    driver: string)
}
