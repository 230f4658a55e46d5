# PCI device naming and status, modelled in Dafny

This project models the part of Harvester's PCI device controller that turns a
PCI device descriptor into strings. The descriptor is the one the ghw hardware
library reports: address, vendor, product, class and subclass (each an ID and
a name), and the kernel driver in use. The modelled code is
`pkg/apis/devices.harvesterhci.io/v1beta1/pcidevice.go`.

- **`strip`** deletes every character that is not an ASCII letter or digit
  (module `Sanitizer`).
- **`extractVendorNameFromBrackets`** takes the first match of the regular
  expression `\[([^\]]+)\]` in a vendor name. It cuts the captured alias before
  the first `/` and strips it (module `Sanitizer`).
- **`resourceName`** and **`trimResourceNameIfNeeded`** (module
  `ResourceNames`) build the device-plugin resource name `vendor.com/PRODUCT`:
  - The vendor part is the bracketed alias or the first space-separated word.
    It is stripped, lower-cased, and `.com` is appended.
  - For a known product, the product part is the sanitised product name:
    trimmed, upper-cased, `/` and `.` turned into `_`, whitespace runs
    collapsed into one `_`, then everything outside `[a-zA-Z0-9_.]` deleted.
  - For an unknown product, the product ID is used instead.
  - For a known product, the socket path `PluginNamePrefix + "/" + vendor + "-"
    + product + ".sock"` must fit the 108-byte `sun_path` of unix(7). If it does
    not, every `VIRTUAL_FUNCTION` becomes `VF` and the check is retried. When
    there is no marker left to shorten, the resource name falls back to the
    product ID.
- **`description`**, **`PCIDeviceStatus.Update`**, **`PCIDeviceNameForHostname`**
  and **`NewPCIDeviceForHostname`** (module `Devices`) build the human-readable
  label, the status record, the object name and a fresh record.
  - `PCIDeviceStatus` is a class whose fields `Update` overwrites in place.
  - The host name and the IOMMU group map are parameters, as in the source.
- The constants of lines 14-20 are declared with the same values:
  `PciDeviceDriver` in `Devices`, and the plugin prefix, the socket limit and
  the two marker strings in `ResourceNames`.

Module `Strings` holds the standard-library pieces the code relies on, as
character-level functions:
- the `strings` package functions `ReplaceAll`, `Contains`, `Split(..)[0]`,
  `ToUpper`, `ToLower` and `TrimSpace`;
- the two deleting regular expressions and the `\s+` collapse;
- Go's byte length `len`;
- `strconv.Itoa`.

Module `Pci` holds the ghw device datatype and the `unknown` sentinel.

Strings are sequences of Unicode scalar values. Go's `len` counts UTF-8 bytes,
so the socket-length check uses `ByteLen`, the UTF-8 length. `ByteLen` equals
the sequence length on ASCII text, and sanitised resource-name parts are
always ASCII.

Two consequences of the code worth keeping in mind:
- Spaces inside a product name become `_` (lines 110-111), so
  `GA102 [GeForce RTX 3090]` gives the segment `GA102_GEFORCE_RTX_3090`.
- The checked path is `PluginNamePrefix + "/" + vendor + "-" + product +
  ".sock"` (line 174). The prefix is 41 bytes and the fixed text is 48 bytes
  in total, so an ASCII pair fits exactly when vendor and product together
  have at most 60 characters.

## Model

| member | source | states |
|---|---|---|
| Sanitizer.Strip | pkg/apis/devices.harvesterhci.io/v1beta1/pcidevice.go:73-81 | the result holds only ASCII letters and digits |
| Sanitizer.StripKeepsAlnum | pkg/apis/devices.harvesterhci.io/v1beta1/pcidevice.go:79 | every ASCII letter or digit of the input occurs in the result exactly as often as in the input, and no other character occurs |
| Sanitizer.StripAppend | pkg/apis/devices.harvesterhci.io/v1beta1/pcidevice.go:79 | stripping a concatenation is the concatenation of the stripped parts, so the survivors keep their order |
| Sanitizer.StripChar | pkg/apis/devices.harvesterhci.io/v1beta1/pcidevice.go:79 | a single character survives exactly when it is an ASCII letter or digit |
| Sanitizer.StripIdempotent | pkg/apis/devices.harvesterhci.io/v1beta1/pcidevice.go:73-81 | stripping twice is stripping once |
| Sanitizer.StripIdentity | pkg/apis/devices.harvesterhci.io/v1beta1/pcidevice.go:73-81 | strip leaves a string unchanged exactly when it is all ASCII letters and digits |
| Sanitizer.FirstBracketMatch | pkg/apis/devices.harvesterhci.io/v1beta1/pcidevice.go:85-89 | the leftmost match of `\[([^\]]+)\]` at or after a position: it opens a match and no earlier position does; None means no position opens one |
| Sanitizer.BracketGroup | pkg/apis/devices.harvesterhci.io/v1beta1/pcidevice.go:89-90 | the captured group is non-empty, holds no `]`, and the text at the match is `[`, the group, `]` |
| Sanitizer.ExtractVendorNameFromBrackets | pkg/apis/devices.harvesterhci.io/v1beta1/pcidevice.go:83-92 | defined only when the expression matches (the panic otherwise); the result holds only ASCII letters and digits |
| Sanitizer.ExtractFromAlias | pkg/apis/devices.harvesterhci.io/v1beta1/pcidevice.go:83-92 | for a name whose first `[` opens a closed non-empty alias, the expression matches and the result is the stripped alias text before its first `/` |
| ResourceNames.VendorBase | pkg/apis/devices.harvesterhci.io/v1beta1/pcidevice.go:96-101 | the vendor base holds only ASCII letters and digits, on both the alias and the first-word path |
| ResourceNames.VendorSpaceRemovalNoop | pkg/apis/devices.harvesterhci.io/v1beta1/pcidevice.go:103 | removing spaces from a stripped vendor base changes nothing |
| ResourceNames.VendorDomain | pkg/apis/devices.harvesterhci.io/v1beta1/pcidevice.go:102-104 | the vendor part is the lower-cased vendor base followed by `.com`, and everything before `.com` is lower-case letters and digits |
| ResourceNames.VendorDomainAscii | pkg/apis/devices.harvesterhci.io/v1beta1/pcidevice.go:102-104 | the vendor part is ASCII text |
| ResourceNames.SanitizeProduct | pkg/apis/devices.harvesterhci.io/v1beta1/pcidevice.go:105-113 | no contract of its own: the fixed chain trim, upper-case, `/` to `_`, `.` to `_`, `\s+` to `_`, delete outside `[a-zA-Z0-9_.]`, in the order of the source; its properties are the lemmas below |
| ResourceNames.SanitizeProductKeepsAlnum | pkg/apis/devices.harvesterhci.io/v1beta1/pcidevice.go:105-113 | the letters and digits of the segment are exactly those of the trimmed, upper-cased name, in order |
| ResourceNames.SanitizeProductPlainName | pkg/apis/devices.harvesterhci.io/v1beta1/pcidevice.go:106-113 | for a name of letters, digits, `_`, `/` and `.`, the segment has the same length and each position holds `_` for `/` or `.` and the upper-cased character otherwise |
| ResourceNames.SanitizeProductAlphabet | pkg/apis/devices.harvesterhci.io/v1beta1/pcidevice.go:105-113 | a sanitised product segment contains only `[A-Z0-9_]` |
| ResourceNames.SanitizeProductIdempotent | pkg/apis/devices.harvesterhci.io/v1beta1/pcidevice.go:105-113 | sanitising a sanitised segment changes nothing |
| ResourceNames.SocketPath | pkg/apis/devices.harvesterhci.io/v1beta1/pcidevice.go:174 | the checked path has 48 characters besides the vendor and product parts |
| ResourceNames.Fits | pkg/apis/devices.harvesterhci.io/v1beta1/pcidevice.go:175 | no contract of its own: the byte length of the checked path is at most the 108-byte limit; SocketPathLength gives its arithmetic form |
| ResourceNames.SocketPathLength | pkg/apis/devices.harvesterhci.io/v1beta1/pcidevice.go:174-175 | for ASCII parts the checked path is 48 bytes plus the two parts, so it fits the 108-byte limit exactly when the parts total at most 60 characters |
| ResourceNames.Shorten | pkg/apis/devices.harvesterhci.io/v1beta1/pcidevice.go:179 | shortening never lengthens the product, and strictly shortens it when it contains `VIRTUAL_FUNCTION` ; ShortenFirstMarker and ShortenNoop state its contents |
| ResourceNames.ShortenFirstMarker | pkg/apis/devices.harvesterhci.io/v1beta1/pcidevice.go:179 | the text before the leftmost `VIRTUAL_FUNCTION` is kept, that marker becomes `VF`, and the text after it is shortened in turn |
| ResourceNames.ShortenRemovesMarker | pkg/apis/devices.harvesterhci.io/v1beta1/pcidevice.go:179 | replacing every `VIRTUAL_FUNCTION` by `VF` leaves no `VIRTUAL_FUNCTION` behind |
| ResourceNames.ShortenNoop | pkg/apis/devices.harvesterhci.io/v1beta1/pcidevice.go:179 | shortening a product without the marker changes nothing |
| ResourceNames.ShortenIdempotent | pkg/apis/devices.harvesterhci.io/v1beta1/pcidevice.go:179 | shortening twice is shortening once |
| ResourceNames.ShortenSegment | pkg/apis/devices.harvesterhci.io/v1beta1/pcidevice.go:179 | shortening keeps a product segment within `[A-Z0-9_]` |
| Strings.ReplaceAllShrinks | pkg/apis/devices.harvesterhci.io/v1beta1/pcidevice.go:176-180 | replacing by a shorter text never lengthens, and strictly shortens when the pattern occurs, which is what makes the recursive retry terminate |
| ResourceNames.TrimResourceNameIfNeeded | pkg/apis/devices.harvesterhci.io/v1beta1/pcidevice.go:173-185 | the product is kept when its path fits; otherwise the shortened product when there was a marker and the shortened path fits; otherwise the ID |
| ResourceNames.TrimFitsOrFallsBack | pkg/apis/devices.harvesterhci.io/v1beta1/pcidevice.go:173-185 | the result is `vendor/ID`, or `vendor/seg` where seg is the product or its shortened form, within `[A-Z0-9_]`, and its socket path is within the limit |
| ResourceNames.ResourceName | pkg/apis/devices.harvesterhci.io/v1beta1/pcidevice.go:94-118 | no contract of its own beyond the panic precondition; ResourceNameUnknownProduct and ResourceNameKnownProduct state its two shapes |
| ResourceNames.ResourceNameUnknownProduct | pkg/apis/devices.harvesterhci.io/v1beta1/pcidevice.go:116-117 | with an unknown product name the resource name is the vendor part, `/`, and the product ID, with no length check |
| ResourceNames.ResourceNameKnownProduct | pkg/apis/devices.harvesterhci.io/v1beta1/pcidevice.go:105-114 | with a known product name the resource name is the vendor part, `/`, and either the product ID or a fitting sanitised segment |
| Devices.VendorLabel | pkg/apis/devices.harvesterhci.io/v1beta1/pcidevice.go:50-55 | the vendor name when known, else `Vendor <ID>`; never the unknown sentinel |
| Devices.DeviceLabel | pkg/apis/devices.harvesterhci.io/v1beta1/pcidevice.go:56-61 | the product name when known, else `Device <ID>`; never the unknown sentinel |
| Devices.ClassLabel | pkg/apis/devices.harvesterhci.io/v1beta1/pcidevice.go:62-69 | the subclass name when known, else the class name when known, else `Class <class ID><subclass ID>`; never the unknown sentinel |
| Devices.Description | pkg/apis/devices.harvesterhci.io/v1beta1/pcidevice.go:49-71 | no contract of its own: `<class>: <vendor> <device>` over the three labels; DescriptionParts states the layout |
| Devices.DescriptionParts | pkg/apis/devices.harvesterhci.io/v1beta1/pcidevice.go:49-71 | the description is the class label, `: `, the vendor label, one space and the device label |
| Devices.PCIDeviceStatus.constructor | pkg/apis/devices.harvesterhci.io/v1beta1/pcidevice.go:37-47 | a new status has every field empty, like Go's zero value |
| Devices.Updated | pkg/apis/devices.harvesterhci.io/v1beta1/pcidevice.go:120-134 | no contract of its own: the status value Update leaves behind; the Update* lemmas state its properties |
| Devices.PCIDeviceStatus.Update | pkg/apis/devices.harvesterhci.io/v1beta1/pcidevice.go:120-134 | the whole new state: every field overwritten from the device and host, and the IOMMU group written only when the address has an entry |
| Devices.UpdateIommuGroup | pkg/apis/devices.harvesterhci.io/v1beta1/pcidevice.go:128-131 | with an entry, the IOMMU group is a decimal numeral that parses back to the group; without one, it keeps its previous value |
| Strings.Itoa | pkg/apis/devices.harvesterhci.io/v1beta1/pcidevice.go:130 | no contract of its own: `strconv.Itoa` as an optional minus and the decimal digits; ItoaRoundTrip states the round trip |
| Strings.ItoaRoundTrip | pkg/apis/devices.harvesterhci.io/v1beta1/pcidevice.go:130 | the decimal form of an integer is an optional minus and digits, and parses back to the integer |
| Devices.UpdateClassId | pkg/apis/devices.harvesterhci.io/v1beta1/pcidevice.go:124 | the class ID is the class ID followed by the subclass ID |
| Devices.UpdateOverwrites | pkg/apis/devices.harvesterhci.io/v1beta1/pcidevice.go:120-134 | the previous status matters for nothing but the IOMMU group |
| Devices.UpdateIdempotent | pkg/apis/devices.harvesterhci.io/v1beta1/pcidevice.go:120-134 | updating twice with the same inputs is updating once |
| Devices.PCIDeviceNameForHostname | pkg/apis/devices.harvesterhci.io/v1beta1/pcidevice.go:139-146 | the name is the host name, `-`, and the address with every `:` and `.` removed; after the host name there is no `:` or `.` |
| Strings.ReplaceAll | pkg/apis/devices.harvesterhci.io/v1beta1/pcidevice.go:108-109 | no contract of its own: `strings.ReplaceAll` with leftmost, non-overlapping matches; ReplaceAllFirst, ReplaceAllShrinks, ReplaceAllAlphabet, ReplaceCharMap and DeleteTwoChars state its properties |
| Strings.ReplaceAllFirst | pkg/apis/devices.harvesterhci.io/v1beta1/pcidevice.go:179 | at the leftmost occurrence of the pattern the text before it is kept, the occurrence becomes the replacement, and replacing continues after it; with ReplaceAllAbsent this fixes every result |
| Strings.ReplaceCharMap | pkg/apis/devices.harvesterhci.io/v1beta1/pcidevice.go:108-109 | replacing a character by one character keeps the length and changes exactly the positions that held it |
| Strings.Filter | pkg/apis/devices.harvesterhci.io/v1beta1/pcidevice.go:112-113 | the deleting regular expressions: the result is no longer than the input and holds only kept characters |
| Strings.FilterMultiset | pkg/apis/devices.harvesterhci.io/v1beta1/pcidevice.go:112-113 | each kept character occurs as often as in the input, no other one occurs |
| Strings.FilterAppend | pkg/apis/devices.harvesterhci.io/v1beta1/pcidevice.go:112-113 | deleting works character by character, so the kept characters stay in order |
| Strings.DeleteTwoChars | pkg/apis/devices.harvesterhci.io/v1beta1/pcidevice.go:140 | the two nested replace-alls by the empty string delete exactly the two characters and keep the rest in order |
| Devices.NewPCIDeviceForHostname | pkg/apis/devices.harvesterhci.io/v1beta1/pcidevice.go:148-156 | the record is named by PCIDeviceNameForHostname and its only annotation maps the driver key to the device's driver |
| Devices.NewDeviceStatusIsUpdate | pkg/apis/devices.harvesterhci.io/v1beta1/pcidevice.go:157-166 | a new record's status is what Update writes into an empty status when the IOMMU map has no entry for the address |
| Strings.IndexOf | pkg/apis/devices.harvesterhci.io/v1beta1/pcidevice.go:89-90 | the position of the first occurrence of a character, or the length when it does not occur |
| Strings.FirstField | pkg/apis/devices.harvesterhci.io/v1beta1/pcidevice.go:100 | the first field of a split is a prefix without the separator, followed by the separator when shorter than the text |
| Strings.Contains | pkg/apis/devices.harvesterhci.io/v1beta1/pcidevice.go:176 | no contract of its own: `strings.Contains`; ContainsAt proves it holds exactly when the pattern occurs at some position |
| Strings.ContainsAt | pkg/apis/devices.harvesterhci.io/v1beta1/pcidevice.go:176 | the substring test holds exactly when the pattern occurs at some position |
| Strings.ToUpper | pkg/apis/devices.harvesterhci.io/v1beta1/pcidevice.go:107 | same length, each lower-case ASCII letter replaced by its upper-case form, and ASCII characters that are not lower-case letters unchanged |
| Strings.ToLower | pkg/apis/devices.harvesterhci.io/v1beta1/pcidevice.go:102-104 | same length, no upper-case ASCII letter left, each upper-case letter replaced by its lower-case form and every other character unchanged |
| Strings.TrimSpace | pkg/apis/devices.harvesterhci.io/v1beta1/pcidevice.go:106 | the result neither starts nor ends with a space, and only spaces were removed, only at the two ends |
| Strings.CollapseSpaces | pkg/apis/devices.harvesterhci.io/v1beta1/pcidevice.go:110-111 | no `\s` character is left; CollapseSpacesRun pins each run to one `_` |
| Strings.CollapseSpacesRun | pkg/apis/devices.harvesterhci.io/v1beta1/pcidevice.go:110-111 | a maximal run of `\s` between text without `\s` and text not starting with `\s` becomes exactly one `_` |
| Strings.CollapseSpacesKeepsAlnum | pkg/apis/devices.harvesterhci.io/v1beta1/pcidevice.go:110-111 | collapsing keeps the letters and digits, in order, and adds none |
| Strings.CollapseSpacesKeepsText | pkg/apis/devices.harvesterhci.io/v1beta1/pcidevice.go:110-111 | ignoring every `_`, the result is the input with its `\s` and `_` characters removed, in order |
| Strings.ByteLen | pkg/apis/devices.harvesterhci.io/v1beta1/pcidevice.go:175 | no contract of its own: Go's `len`, the UTF-8 byte count of the text; AsciiByteLen states its value on ASCII text |
| Strings.AsciiByteLen | pkg/apis/devices.harvesterhci.io/v1beta1/pcidevice.go:175 | Go's byte length of ASCII text is its character count |

## Left out

- Devices.PCIDeviceStatus.Update: computes the new value first and then writes
  it field by field. The source interleaves the computation with the writes.
  Nothing reads the record during the call, so the end state is the same.
- Strings.ToUpper: maps ASCII letters, plus U+0131 and U+017F, whose upper
  case is ASCII. Other non-ASCII characters are kept where Go maps them to
  their Unicode upper case. A later step (lines 112-113) deletes every
  non-ASCII character, so product segments are unaffected.
- Strings.ToLower: maps ASCII letters only. It is applied only to stripped,
  all-ASCII vendor text, where this is Go's behaviour.
- Strings.Itoa: works on unbounded integers rather than Go's 64-bit `int`.
  IOMMU group numbers are small, so no wrap-around arises.
- Strings.ReplaceAll: defined for non-empty patterns only. Every pattern in
  the source is non-empty.
- Invalid UTF-8: the model's strings are Unicode scalar values, so Go strings
  holding invalid byte sequences are not represented.
- The panic on a vendor name with a `[` that opens no match of the alias
  expression (`matches[1]` of a nil match) is not modelled as behaviour.
  Instead it is a precondition:
  - `ExtractVendorNameFromBrackets` requires a match;
  - `VendorBase`, `VendorDomain`, `ResourceName`, `Update` and
    `NewPCIDeviceForHostname` require `ValidVendorName`.
- Regular-expression compilation and its `fmt.Printf` error path: the
  patterns are fixed and always compile. Each one is written as a
  character-level function.
- Kubernetes scaffolding:
  - `TypeMeta` and `ObjectMeta` beyond the object name and the annotation map;
  - the empty `PCIDeviceSpec`;
  - the JSON tags and the code-generation markers.
- The ghw library: its device probing is not modelled; the device arrives as
  a value. Its `util.UNKNOWN` is the constant `"unknown"`.
- A nil device: the model always has a device value.
