/** Resource-name synthesis: `vendor.com/PRODUCT`, shortened so that the
    device plugin's socket path stays within the Unix socket path limit. */
module ResourceNames {
  import opened Strings
  import opened Pci
  import opened Sanitizer

  const PluginNamePrefix: string := "/var/lib/kubelet/device-plugins/kubevirt-"
  /** sun_path in unix(7) holds 108 bytes. */
  const SocketFileNameLimit: nat := 108
  const VFSuffix: string := "VIRTUAL_FUNCTION"
  const ShortenedVFSuffix: string := "VF"

  /* ---------------------------------------------------------------------
     Vendor part
     --------------------------------------------------------------------- */

  /** The vendor text before lower-casing: the bracketed alias when the name
      has a `[`, otherwise the stripped first space-separated word. */
  function VendorBase(name: string): (r: string)
    requires ValidVendorName(name)
    ensures forall i :: 0 <= i < |r| ==> IsAsciiAlnum(r[i])
  {
    if '[' in name then ExtractVendorNameFromBrackets(name)
    else Strip(FirstField(name, ' '))
  }

  /** Removing spaces from a stripped vendor base changes nothing. */
  lemma VendorSpaceRemovalNoop(base: string)
    requires forall i :: 0 <= i < |base| ==> IsAsciiAlnum(base[i])
    ensures ReplaceAll(base, " ", "") == base
  {
    ReplaceCharAbsent(base, ' ', "");
  }

  predicate IsDomainLabelChar(c: char) { IsAsciiLower(c) || IsAsciiDigit(c) }

  /** The vendor part `vendorCleaned`: the lower-cased vendor base (removing
      spaces from it changes nothing) followed by `.com`; the part before
      `.com` is lower-case letters and digits. */
  function VendorDomain(name: string): (r: string)
    requires ValidVendorName(name)
    ensures r == ToLower(VendorBase(name)) + ".com"
    ensures forall i :: 0 <= i < |r| - 4 ==> IsDomainLabelChar(r[i])
  {
    var base := VendorBase(name);
    VendorSpaceRemovalNoop(base);
    ToLower(ReplaceAll(base, " ", "")) + ".com"
  }

  /* ---------------------------------------------------------------------
     Product part
     --------------------------------------------------------------------- */

  /** The class `[a-zA-Z0-9_.]`. */
  predicate IsProductChar(c: char) { IsAsciiAlnum(c) || c == '_' || c == '.' }

  /** The alphabet of a sanitised product segment: `[A-Z0-9_]`. */
  predicate IsSegmentChar(c: char) { IsAsciiUpper(c) || IsAsciiDigit(c) || c == '_' }

  predicate IsSegment(s: string)
  {
    forall i :: 0 <= i < |s| ==> IsSegmentChar(s[i])
  }

  /** `productCleaned` for a known product name: trim, upper-case, `/` and `.`
      to `_`, whitespace runs to one `_`, then delete everything outside
      `[a-zA-Z0-9_.]`. */
  function SanitizeProduct(name: string): string
  {
    var trimmed := TrimSpace(name);
    var upper := ToUpper(trimmed);
    var noSlash := ReplaceAll(upper, "/", "_");
    var noDot := ReplaceAll(noSlash, ".", "_");
    var collapsed := CollapseSpaces(noDot);
    Filter(IsProductChar, collapsed)
  }

  /** A sanitised product segment contains only `[A-Z0-9_]`. */
  lemma SanitizeProductAlphabet(name: string)
    ensures IsSegment(SanitizeProduct(name))
  {
    var upper := ToUpper(TrimSpace(name));
    var noSlash := ReplaceAll(upper, "/", "_");
    var noDot := ReplaceAll(noSlash, ".", "_");
    var collapsed := CollapseSpaces(noDot);
    var r := Filter(IsProductChar, collapsed);
    forall i | 0 <= i < |r|
      ensures IsSegmentChar(r[i])
    {
      var c := r[i];
      FilterSubset(IsProductChar, collapsed, c);
      if c != '_' {
        CollapseSpacesAlphabet(noDot, c);
        ReplaceCharAlphabet(noSlash, '.', "_", c);
        ReplaceCharAlphabet(upper, '/', "_", c);
        var j :| 0 <= j < |upper| && upper[j] == c;
      }
    }
  }

  /** Sanitising a sanitised segment changes nothing. */
  lemma SanitizeProductIdempotent(name: string)
    ensures SanitizeProduct(SanitizeProduct(name)) == SanitizeProduct(name)
  {
    var s := SanitizeProduct(name);
    SanitizeProductAlphabet(name);
    assert forall i :: 0 <= i < |s| ==>
      (&& !IsSpace(s[i]) && !IsReSpace(s[i]) && IsAscii(s[i])
       && !IsAsciiLower(s[i]) && s[i] != '/' && s[i] != '.' && IsProductChar(s[i]));
    TrimSpaceNoop(s);
    ToUpperNoop(s);
    ReplaceCharAbsent(s, '/', "_");
    ReplaceCharAbsent(s, '.', "_");
    CollapseSpacesNoop(s);
    FilterIdentity(IsProductChar, s);
  }

  /** Sanitising keeps every letter and digit of the trimmed, upper-cased
      name, in order, and adds none. */
  lemma SanitizeProductKeepsAlnum(name: string)
    ensures Filter(IsAsciiAlnum, SanitizeProduct(name)) == Filter(IsAsciiAlnum, ToUpper(TrimSpace(name)))
  {
    var upper := ToUpper(TrimSpace(name));
    var noSlash := ReplaceAll(upper, "/", "_");
    var noDot := ReplaceAll(noSlash, ".", "_");
    var collapsed := CollapseSpaces(noDot);
    assert Filter(IsAsciiAlnum, "_") == [];
    FilterReplaceChar(IsAsciiAlnum, upper, '/', "_");
    FilterReplaceChar(IsAsciiAlnum, noSlash, '.', "_");
    CollapseSpacesKeepsAlnum(noDot);
    FilterFilter(IsAsciiAlnum, IsProductChar, collapsed);
  }

  /** Letters, digits, `_`, `/` and `.`: the characters sanitising maps one to one. */
  predicate IsPlainProductChar(c: char) { IsAsciiAlnum(c) || c == '_' || c == '/' || c == '.' }

  /** For a name made of letters, digits, `_`, `/` and `.`, sanitising
      upper-cases each letter and turns each `/` and `.` into `_`, position
      by position. */
  lemma SanitizeProductPlainName(name: string)
    requires forall i :: 0 <= i < |name| ==> IsPlainProductChar(name[i])
    ensures var r := SanitizeProduct(name);
      && |r| == |name|
      && forall i :: 0 <= i < |name| ==>
           r[i] == (if name[i] == '/' || name[i] == '.' then '_' else UpperChar(name[i]))
  {
    TrimSpaceNoop(name);
    var upper := ToUpper(name);
    var noSlash := ReplaceAll(upper, "/", "_");
    var noDot := ReplaceAll(noSlash, ".", "_");
    ReplaceCharMap(upper, '/', '_');
    ReplaceCharMap(noSlash, '.', '_');
    forall i | 0 <= i < |noDot|
      ensures noDot[i] == (if name[i] == '/' || name[i] == '.' then '_' else UpperChar(name[i]))
      ensures IsProductChar(noDot[i]) && !IsReSpace(noDot[i])
    {
      assert upper[i] == UpperChar(name[i]);
      assert noSlash[i] == (if upper[i] == '/' then '_' else upper[i]);
      assert noDot[i] == (if noSlash[i] == '.' then '_' else noSlash[i]);
    }
    CollapseSpacesNoop(noDot);
    FilterIdentity(IsProductChar, noDot);
  }

  /* ---------------------------------------------------------------------
     Fitting the socket path
     --------------------------------------------------------------------- */

  /** The path whose length trimResourceNameIfNeeded checks. */
  function SocketPath(vendor: string, product: string): (r: string)
    ensures |r| == 48 + |vendor| + |product|
  {
    PluginNamePrefix + "/" + vendor + "-" + product + ".sock"
  }

  /** The checked path is at most the limit long, counted in bytes as Go's len does. */
  predicate Fits(vendor: string, product: string)
  {
    ByteLen(SocketPath(vendor, product)) <= SocketFileNameLimit
  }

  /** For ASCII parts the path has 48 bytes besides them, so a pair fits
      exactly when the two parts together have at most 60 characters. */
  lemma SocketPathLength(vendor: string, product: string)
    requires AllAscii(vendor) && AllAscii(product)
    ensures ByteLen(SocketPath(vendor, product)) == 48 + |vendor| + |product|
    ensures Fits(vendor, product) <==> |vendor| + |product| <= 60
  {
    var path := SocketPath(vendor, product);
    assert |PluginNamePrefix| == 41;
    assert AllAscii(PluginNamePrefix) by {
      forall i | 0 <= i < 41
        ensures IsAscii(PluginNamePrefix[i])
      {
      }
    }
    assert AllAscii(path);
    AsciiByteLen(path);
  }

  /** Every `VIRTUAL_FUNCTION` replaced by `VF`. */
  function Shorten(product: string): (r: string)
    ensures |r| <= |product|
    ensures Contains(product, VFSuffix) ==> |r| < |product|
  {
    ReplaceAllShrinks(product, VFSuffix, ShortenedVFSuffix);
    ReplaceAll(product, VFSuffix, ShortenedVFSuffix)
  }

  /** Only the marker changes: before the leftmost `VIRTUAL_FUNCTION` the
      text is kept, the marker becomes `VF`, and the rest is shortened in turn. */
  lemma ShortenFirstMarker(a: string, b: string)
    requires forall i :: 0 <= i < |a| ==> !OccursAt(a + VFSuffix + b, VFSuffix, i)
    ensures Shorten(a + VFSuffix + b) == a + ShortenedVFSuffix + Shorten(b)
  {
    ReplaceAllFirst(a, VFSuffix, b, ShortenedVFSuffix);
  }

  /** Shortened text that began with the marker begins with `V`. */
  lemma ShortenHead(t: string)
    ensures |t| >= |VFSuffix| && t[..|VFSuffix|] == VFSuffix ==> |Shorten(t)| > 0 && Shorten(t)[0] == 'V'
  {
  }

  /** If the shortened text starts with `w` and `w` has no `V`, the original
      text starts with `w` too: only a `VF` that was inserted begins with `V`
      where the original had something else. */
  lemma {:induction false} ShortenKeepsPrefix(t: string, w: string)
    requires 'V' !in w
    requires |w| <= |Shorten(t)| && Shorten(t)[..|w|] == w
    ensures |w| <= |t| && t[..|w|] == w
    decreases |t|
  {
    if |w| > 0 && |t| >= |VFSuffix| {
      if t[..|VFSuffix|] == VFSuffix {
        ShortenHead(t);
        assert false;
      } else {
        assert Shorten(t) == [t[0]] + Shorten(t[1..]);
        assert Shorten(t[1..])[..|w| - 1] == w[1..];
        ShortenKeepsPrefix(t[1..], w[1..]);
        assert t == [t[0]] + t[1..];
      }
    }
  }

  /** After shortening, no `VIRTUAL_FUNCTION` is left: the marker cannot
      overlap itself and `VF` cannot start or finish a new one. */
  lemma {:induction false} ShortenRemovesMarker(t: string)
    ensures !Contains(Shorten(t), VFSuffix)
    decreases |t|
  {
    var n := |VFSuffix|;
    if |t| >= n {
      if t[..n] == VFSuffix {
        var tail := Shorten(t[n..]);
        ShortenRemovesMarker(t[n..]);
        var x := Shorten(t);
        assert x == "VF" + tail;
        assert x[1..] == "F" + tail;
        assert x[1..][1..] == tail;
        assert x[1..][0] == 'F';
        assert !Contains(x[1..], VFSuffix);
      } else {
        var tail := Shorten(t[1..]);
        ShortenRemovesMarker(t[1..]);
        var x := Shorten(t);
        assert x == [t[0]] + tail;
        assert x[1..] == tail;
        if |x| >= n && x[..n] == VFSuffix {
          var w := VFSuffix[1..];
          forall i | 0 <= i < n - 1
            ensures tail[i] == w[i]
          {
            assert tail[i] == x[i + 1] && x[i + 1] == VFSuffix[i + 1];
          }
          assert tail[..n - 1] == w;
          ShortenKeepsPrefix(t[1..], w);
          assert false;
        }
      }
    }
  }

  /** Shortening text that has no marker changes nothing. */
  lemma ShortenNoop(product: string)
    requires !Contains(product, VFSuffix)
    ensures Shorten(product) == product
  {
    ReplaceAllAbsent(product, VFSuffix, ShortenedVFSuffix);
  }

  lemma ShortenIdempotent(product: string)
    ensures Shorten(Shorten(product)) == Shorten(product)
  {
    ShortenRemovesMarker(product);
    ShortenNoop(Shorten(product));
  }

  /** trimResourceNameIfNeeded. It recurses at most once: the product is kept
      when the path fits, otherwise its shortened form is used when there was
      a marker to shorten and the shortened path fits, otherwise the ID. */
  function TrimResourceNameIfNeeded(vendor: string, product: string, id: string): (r: string)
    ensures Fits(vendor, product) ==> r == vendor + "/" + product
    ensures !Fits(vendor, product) && Contains(product, VFSuffix) && Fits(vendor, Shorten(product))
      ==> r == vendor + "/" + Shorten(product)
    ensures !Fits(vendor, product) && !(Contains(product, VFSuffix) && Fits(vendor, Shorten(product)))
      ==> r == vendor + "/" + id
    decreases |product|
  {
    if !Fits(vendor, product) then
      if Contains(product, VFSuffix) then
        ShortenRemovesMarker(product);
        TrimResourceNameIfNeeded(vendor, Shorten(product), id)
      else vendor + "/" + id
    else vendor + "/" + product
  }

  /* ---------------------------------------------------------------------
     resourceName
     --------------------------------------------------------------------- */

  /** resourceName. Panics (here: is not defined) when the vendor name has a
      `[` that does not open a match of the alias expression. */
  function ResourceName(dev: Device): string
    requires ValidVendorName(dev.vendor.name)
  {
    var vendor := VendorDomain(dev.vendor.name);
    if dev.product.name != UNKNOWN then
      TrimResourceNameIfNeeded(vendor, SanitizeProduct(dev.product.name), dev.product.id)
    else vendor + "/" + dev.product.id
  }

  /** `seg` is a product segment that fits: `product` itself or its
      shortened form, in the sanitised alphabet, with a socket path within
      the limit. */
  predicate FittedSegment(vendor: string, product: string, seg: string)
  {
    && (seg == product || seg == Shorten(product))
    && IsSegment(seg)
    && Fits(vendor, seg)
    && |vendor| + |seg| <= 60
  }

  /** Shortening keeps a segment in the sanitised alphabet. */
  lemma ShortenSegment(product: string)
    requires IsSegment(product)
    ensures IsSegment(Shorten(product))
  {
    var r := Shorten(product);
    forall i | 0 <= i < |r|
      ensures IsSegmentChar(r[i])
    {
      ReplaceAllAlphabet(product, VFSuffix, ShortenedVFSuffix, r[i]);
    }
  }

  /** The length invariant: trimming either yields a fitting segment or
      falls back to the ID. */
  lemma TrimFitsOrFallsBack(vendor: string, product: string, id: string)
    requires AllAscii(vendor) && IsSegment(product)
    ensures var r := TrimResourceNameIfNeeded(vendor, product, id);
      || r == vendor + "/" + id
      || exists seg :: FittedSegment(vendor, product, seg) && r == vendor + "/" + seg
  {
    var r := TrimResourceNameIfNeeded(vendor, product, id);
    ShortenSegment(product);
    var short := Shorten(product);
    assert AllAscii(product) && AllAscii(short);
    SocketPathLength(vendor, product);
    SocketPathLength(vendor, short);
    if Fits(vendor, product) {
      assert FittedSegment(vendor, product, product);
    } else if Contains(product, VFSuffix) && Fits(vendor, short) {
      assert FittedSegment(vendor, product, short);
    }
  }

  /** For an unknown product name the resource name is the vendor domain
      and the product ID, with no length check. */
  lemma ResourceNameUnknownProduct(dev: Device)
    requires ValidVendorName(dev.vendor.name)
    requires dev.product.name == UNKNOWN
    ensures ResourceName(dev) == VendorDomain(dev.vendor.name) + "/" + dev.product.id
  {
  }

  /** The vendor domain is ASCII text. */
  lemma VendorDomainAscii(name: string)
    requires ValidVendorName(name)
    ensures AllAscii(VendorDomain(name))
  {
    var r := VendorDomain(name);
    forall i | 0 <= i < |r|
      ensures IsAscii(r[i])
    {
      if i >= |r| - 4 {
        assert r[i] == ".com"[i - (|r| - 4)];
      }
    }
  }

  /** For a known product name the resource name is the vendor domain, `/`,
      and either the product ID or a fitting sanitised product segment. */
  lemma ResourceNameKnownProduct(dev: Device)
    requires ValidVendorName(dev.vendor.name)
    requires dev.product.name != UNKNOWN
    ensures var vendor := VendorDomain(dev.vendor.name);
      || ResourceName(dev) == vendor + "/" + dev.product.id
      || exists seg :: FittedSegment(vendor, SanitizeProduct(dev.product.name), seg)
                       && ResourceName(dev) == vendor + "/" + seg
  {
    var vendor := VendorDomain(dev.vendor.name);
    var product := SanitizeProduct(dev.product.name);
    VendorDomainAscii(dev.vendor.name);
    SanitizeProductAlphabet(dev.product.name);
    assert ResourceName(dev) == TrimResourceNameIfNeeded(vendor, product, dev.product.id);
    TrimFitsOrFallsBack(vendor, product, dev.product.id);
  }
}
