/** The PCIDevice record: its human-readable description, its observed
    status (overwritten in place by Update), its object name and the
    construction of a fresh record for a host. */
module Devices {
  import opened Strings
  import opened Pci
  import opened Sanitizer
  import opened ResourceNames

  /** Annotation key under which a new record stores the device's driver. */
  const PciDeviceDriver: string := "harvesterhci.io/pcideviceDriver"

  /* ---------------------------------------------------------------------
     description
     --------------------------------------------------------------------- */

  /** The vendor name, or `Vendor <ID>` when the database does not know it. */
  function VendorLabel(dev: Device): (r: string)
    ensures r != UNKNOWN
    ensures dev.vendor.name != UNKNOWN ==> r == dev.vendor.name
    ensures dev.vendor.name == UNKNOWN ==> r == "Vendor " + dev.vendor.id
  {
    if dev.vendor.name != UNKNOWN then dev.vendor.name else
      assert ("Vendor " + dev.vendor.id)[0] != UNKNOWN[0];
      "Vendor " + dev.vendor.id
  }

  /** The product name, or `Device <ID>` when the database does not know it. */
  function DeviceLabel(dev: Device): (r: string)
    ensures r != UNKNOWN
    ensures dev.product.name != UNKNOWN ==> r == dev.product.name
    ensures dev.product.name == UNKNOWN ==> r == "Device " + dev.product.id
  {
    if dev.product.name != UNKNOWN then dev.product.name else
      assert ("Device " + dev.product.id)[0] != UNKNOWN[0];
      "Device " + dev.product.id
  }

  /** The subclass name, else the class name, else `Class <class ID><subclass ID>`. */
  function ClassLabel(dev: Device): (r: string)
    ensures r != UNKNOWN
    ensures dev.subclass.name != UNKNOWN ==> r == dev.subclass.name
    ensures dev.subclass.name == UNKNOWN && dev.deviceClass.name != UNKNOWN ==> r == dev.deviceClass.name
    ensures dev.subclass.name == UNKNOWN && dev.deviceClass.name == UNKNOWN
      ==> r == "Class " + dev.deviceClass.id + dev.subclass.id
  {
    if dev.subclass.name != UNKNOWN then dev.subclass.name
    else if dev.deviceClass.name != UNKNOWN then dev.deviceClass.name
    else
      assert ("Class " + dev.deviceClass.id + dev.subclass.id)[0] != UNKNOWN[0];
      "Class " + dev.deviceClass.id + dev.subclass.id
  }

  /** description: `<class>: <vendor> <device>`. */
  function Description(dev: Device): string
  {
    ClassLabel(dev) + ": " + VendorLabel(dev) + " " + DeviceLabel(dev)
  }

  /** The description starts with the class label and `: `, and ends with
      the vendor and device labels separated by one space; none of the
      three labels is the unknown sentinel. */
  lemma DescriptionParts(dev: Device)
    ensures var d := Description(dev);
      var c := ClassLabel(dev);
      var tail := VendorLabel(dev) + " " + DeviceLabel(dev);
      && |d| == |c| + 2 + |tail|
      && d[..|c|] == c && d[|c|..|c| + 2] == ": " && d[|c| + 2..] == tail
      && c != UNKNOWN && VendorLabel(dev) != UNKNOWN && DeviceLabel(dev) != UNKNOWN
  {
    var c := ClassLabel(dev);
    var d := Description(dev);
    var tail := VendorLabel(dev) + " " + DeviceLabel(dev);
    assert d == c + ": " + tail;
  }

  /* ---------------------------------------------------------------------
     PCIDeviceStatus
     --------------------------------------------------------------------- */

  /** The value of a PCIDeviceStatus. */
  datatype Status = Status(
    address: string,
    vendorId: string,
    deviceId: string,
    classId: string,
    iommuGroup: string,
    nodeName: string,
    resourceName: string,
    description: string,
    kernelDriverInUse: string)

  /** The zero value of PCIDeviceStatus: every field empty. */
  const EmptyStatus: Status := Status("", "", "", "", "", "", "", "", "")

  /** The status Update leaves behind, starting from `s`. */
  function Updated(s: Status, dev: Device, hostname: string, iommuGroups: map<string, int>): Status
    requires ValidVendorName(dev.vendor.name)
  {
    Status(
      address := dev.address,
      vendorId := dev.vendor.id,
      deviceId := dev.product.id,
      classId := dev.deviceClass.id + dev.subclass.id,
      iommuGroup := if dev.address in iommuGroups then Itoa(iommuGroups[dev.address]) else s.iommuGroup,
      nodeName := hostname,
      resourceName := ResourceName(dev),
      description := Description(dev),
      kernelDriverInUse := dev.driver)
  }

  /** The status record that Update overwrites in place. */
  class PCIDeviceStatus {
    var address: string
    var vendorId: string
    var deviceId: string
    var classId: string
    var iommuGroup: string
    var nodeName: string
    var resourceName: string
    var description: string
    var kernelDriverInUse: string

    function Value(): Status
      reads this
    {
      Status(address, vendorId, deviceId, classId, iommuGroup, nodeName,
             resourceName, description, kernelDriverInUse)
    }

    /** A zero-valued status. */
    constructor ()
      ensures Value() == EmptyStatus
    {
      address, vendorId, deviceId, classId := "", "", "", "";
      iommuGroup, nodeName, resourceName := "", "", "";
      description, kernelDriverInUse := "", "";
    }

    /** Overwrite every field with the corresponding field of `st`. */
    method Assign(st: Status)
      modifies this
      ensures Value() == st
    {
      address, vendorId, deviceId, classId := st.address, st.vendorId, st.deviceId, st.classId;
      iommuGroup, nodeName, resourceName := st.iommuGroup, st.nodeName, st.resourceName;
      description, kernelDriverInUse := st.description, st.kernelDriverInUse;
    }

    /** Update: overwrite every field from the device and host, except that
        the IOMMU group is written only when the address has an entry. */
    method Update(dev: Device, hostname: string, iommuGroups: map<string, int>)
      requires ValidVendorName(dev.vendor.name)
      modifies this
      ensures Value() == Updated(old(Value()), dev, hostname, iommuGroups)
    {
      var next := Updated(Value(), dev, hostname, iommuGroups);
      Assign(next);
    }
  }

  /** Update is a full overwrite: two statuses updated with the same inputs
      agree on every field but the IOMMU group. */
  lemma UpdateOverwrites(s1: Status, s2: Status, dev: Device, hostname: string, iommuGroups: map<string, int>)
    requires ValidVendorName(dev.vendor.name)
    ensures Updated(s1, dev, hostname, iommuGroups).(iommuGroup := "")
         == Updated(s2, dev, hostname, iommuGroups).(iommuGroup := "")
  {
  }

  /** The IOMMU group is the decimal numeral of the group of the device's
      address when the map has one, and is kept otherwise. */
  lemma UpdateIommuGroup(s: Status, dev: Device, hostname: string, iommuGroups: map<string, int>)
    requires ValidVendorName(dev.vendor.name)
    ensures var u := Updated(s, dev, hostname, iommuGroups);
      && (dev.address in iommuGroups ==>
            IsDecimal(u.iommuGroup) && ParseDecimal(u.iommuGroup) == iommuGroups[dev.address])
      && (dev.address !in iommuGroups ==> u.iommuGroup == s.iommuGroup)
  {
    if dev.address in iommuGroups {
      ItoaRoundTrip(iommuGroups[dev.address]);
    }
  }

  /** The class ID is the class ID followed by the subclass ID. */
  lemma UpdateClassId(s: Status, dev: Device, hostname: string, iommuGroups: map<string, int>)
    requires ValidVendorName(dev.vendor.name)
    ensures var u := Updated(s, dev, hostname, iommuGroups);
      u.classId[..|dev.deviceClass.id|] == dev.deviceClass.id
      && u.classId[|dev.deviceClass.id|..] == dev.subclass.id
  {
  }

  /** Updating twice with the same inputs is the same as updating once. */
  lemma UpdateIdempotent(s: Status, dev: Device, hostname: string, iommuGroups: map<string, int>)
    requires ValidVendorName(dev.vendor.name)
    ensures var u := Updated(s, dev, hostname, iommuGroups);
      Updated(u, dev, hostname, iommuGroups) == u
  {
  }

  /* ---------------------------------------------------------------------
     Object name and a fresh record
     --------------------------------------------------------------------- */

  /** The characters the object name keeps from the address. */
  predicate IsAddressKept(c: char) { c != ':' && c != '.' }

  /** PCIDeviceNameForHostname: the host name, `-`, and the address with
      every `:` and `.` removed. */
  function PCIDeviceNameForHostname(address: string, hostname: string): (r: string)
    ensures r == hostname + "-" + Filter(IsAddressKept, address)
    ensures forall i :: |hostname| < i < |r| ==> r[i] != ':' && r[i] != '.'
  {
    DeleteTwoChars(address, ':', '.', IsAddressKept);
    hostname + "-" + ReplaceAll(ReplaceAll(address, ":", ""), ".", "")
  }

  /** The persisted PCIDevice: its object name, its annotations and its status. */
  datatype PCIDevice = PCIDevice(name: string, annotations: map<string, string>, status: Status)

  /** NewPCIDeviceForHostname: named after host and address, with the driver
      under the driver annotation and a status built from the device. */
  function NewPCIDeviceForHostname(dev: Device, hostname: string): (d: PCIDevice)
    requires ValidVendorName(dev.vendor.name)
    ensures d.name == PCIDeviceNameForHostname(dev.address, hostname)
    ensures d.annotations.Keys == {PciDeviceDriver} && d.annotations[PciDeviceDriver] == dev.driver
  {
    PCIDevice(
      name := PCIDeviceNameForHostname(dev.address, hostname),
      annotations := map[PciDeviceDriver := dev.driver],
      status := Status(
        address := dev.address,
        vendorId := dev.vendor.id,
        deviceId := dev.product.id,
        classId := dev.deviceClass.id + dev.subclass.id,
        iommuGroup := "",
        nodeName := hostname,
        resourceName := ResourceName(dev),
        description := Description(dev),
        kernelDriverInUse := dev.driver))
  }

  /** A new record's status is what Update writes into a zero status when
      the IOMMU map has no entry for the device's address. */
  lemma NewDeviceStatusIsUpdate(dev: Device, hostname: string, iommuGroups: map<string, int>)
    requires ValidVendorName(dev.vendor.name)
    requires dev.address !in iommuGroups
    ensures NewPCIDeviceForHostname(dev, hostname).status == Updated(EmptyStatus, dev, hostname, iommuGroups)
  {
  }
}
