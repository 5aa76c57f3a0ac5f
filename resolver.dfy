/** The two resolver functions as the Rust code runs them: one pass over
    the manifest's lines with early exit, flags and accumulated state.
    Each method is proved to compute the specification of module
    `Manifest` on the lines it reads. */
module Resolver {
  import opened Wrappers
  import opened Text
  import opened TomlValues
  import opened Manifest

  /** The body of the `get_package_name` loop for one trimmed line, before
      any name is found: the new flag, and the name the line gives, if any. */
  method PackageLine(inPackage: bool, t: string) returns (inPackage': bool, name: Option<string>)
    ensures PackageState(inPackage', name) == PackageLineStep(PackageState(inPackage, None), ReadTrimmed(t))
  {
    if t == PackageHeader {
      return true, None;
    }
    if IsTableHeader(t) {
      return false, None;
    }
    EntryLine(t);
    name := None;
    if inPackage {
      name := ParseTomlStringValue(t, KeyText(Name));
    }
    return inPackage, name;
  }

  /** The loop of `get_package_name`. Its early return on the first name
      found is the `name.None?` half of the loop guard. */
  method FindPackageName(lines: seq<string>) returns (name: Option<string>)
    ensures name == PackageUpTo(ReadLines(lines), |lines|).name
  {
    var inPackage := false;
    var i := 0;
    name := None;
    while i < |lines| && name.None?
      invariant 0 <= i <= |lines|
      invariant PackageUpTo(ReadLines(lines), i) == PackageState(inPackage, name)
    {
      PackageNext(lines, i);
      inPackage, name := PackageLine(inPackage, Trim(lines[i]));
      i := i + 1;
    }
    PackageLoopEnd(lines, i);
  }

  /** `get_package_name`: the name the loop finds, or the error it ends with. */
  method GetPackageName(lines: seq<string>) returns (r: Result<string, ManifestError>)
    ensures r == PackageName(ReadLines(lines))
  {
    var name := FindPackageName(lines);
    PackageUpToSections(ReadLines(lines), |lines|);
    if name.None? {
      return Err(NoPackageName);
    }
    return Ok(name.value);
  }

  /** The `[package]` part of the loop body, on an entry line. */
  method ScanPackageEntry(st: ScanState, t: string) returns (st': ScanState)
    ensures st' == SetPackageFields(st, StringValue(t, KeyText(DefaultRun)), BoolValue(t, AutobinsKey))
  {
    st' := st;
    if st.inPackage {
      if st.defaultRun.None? {
        var defaultRun := ParseTomlStringValue(t, KeyText(DefaultRun));
        st' := st'.(defaultRun := defaultRun);
      }
      var flag := BoolValue(t, AutobinsKey);
      if flag.Some? {
        st' := st'.(autobins := flag.value);
      }
    }
  }

  /** The `[[bin]]` part of the loop body, on an entry line. */
  method ScanBinEntry(st: ScanState, t: string) returns (st': ScanState)
    ensures st' == SetBinFields(st, StringValue(t, KeyText(Name)), StringValue(t, KeyText(Path)))
  {
    st' := st;
    if st.inBin && st.bins != [] {
      var last := st.bins[|st.bins| - 1];
      if last.name.None? {
        var name := ParseTomlStringValue(t, KeyText(Name));
        last := last.(name := name);
      }
      if last.path.None? {
        var path := ParseTomlStringValue(t, KeyText(Path));
        last := last.(path := path);
      }
      st' := st.(bins := st.bins[..|st.bins| - 1] + [last]);
    }
  }

  /** The body of the `get_binary_name` loop for one trimmed line. */
  method ScanStep(st: ScanState, t: string) returns (st': ScanState)
    ensures st' == ScanLine(st, ReadTrimmed(t))
  {
    if t == PackageHeader {
      return st.(inPackage := true, inBin := false);
    }
    if t == BinHeader {
      return st.(inPackage := false, inBin := true, bins := st.bins + [BinTarget(None, None)]);
    }
    if IsTableHeader(t) {
      return st.(inPackage := false, inBin := false);
    }
    EntryLine(t);
    st' := ScanPackageEntry(st, t);
    st' := ScanBinEntry(st', t);
  }

  /** The loop of `get_binary_name`. Its locals (the two section flags,
      `default_run`, `autobins_enabled` and the `explicit_bins` list it
      pushes to and updates) are kept together in a `ScanState`. */
  method ScanManifest(lines: seq<string>) returns (st: ScanState)
    ensures st == ScanUpTo(ReadLines(lines), |lines|)
  {
    st := Start;
    var i := 0;
    while i < |lines|
      invariant 0 <= i <= |lines|
      invariant st == ScanUpTo(ReadLines(lines), i)
    {
      ScanNext(lines, i);
      st := ScanStep(st, Trim(lines[i]));
      i := i + 1;
    }
  }

  /** `get_binary_name`: the package name (its error passes through), the
      scan, then the priority chain. */
  method GetBinaryName(lines: seq<string>, mainExists: bool) returns (r: Result<string, ManifestError>)
    ensures r == BinaryName(ReadLines(lines), mainExists)
  {
    var packageName := GetPackageName(lines);
    if packageName.Err? {
      return Err(packageName.error);
    }
    var st := ScanManifest(lines);
    r := ResolveArtifact(packageName.value, st.defaultRun, st.autobins, st.bins, mainExists);
  }
}
