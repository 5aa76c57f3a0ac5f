/** The manifest resolver: which crate a project is (`get_package_name`) and
    which binary `cargo build` leaves for the launcher to run
    (`get_binary_name`). Both read `Cargo.toml` line by line, knowing only
    which table the current line belongs to; the file's lines and whether
    `src/main.rs` exists are given as values.

    Each line is read once, trimmed, into a `Line`: a table header, or an
    entry holding what it would set (the value readers are pure, so reading
    every line up front gives what the loops read line by line). What the
    lines mean is then stated declaratively: a line belongs to the table
    whose header is the last header above it (`InSection`), and a table's
    field is set by the first line of that table that sets it
    (`FirstField`) or, for `autobins`, the last (`LastAutobins`). The loops
    themselves are the folds `PackageUpTo` and `ScanUpTo`, which the
    lemmas here tie to the declarative definitions; the methods of module
    `Resolver` run them as the Rust code does. */
module Manifest {
  import opened Wrappers
  import opened Text
  import opened TomlValues

  const PackageHeader := "[package]"
  const BinHeader := "[[bin]]"

  /** One `[[bin]]` table: its `name` and its `path`, when set. */
  datatype BinTarget = BinTarget(name: Option<string>, path: Option<string>)

  datatype ManifestError =
    | NoPackageName                              // "Could not find project name in Cargo.toml"
    | MultipleBinaryTargets(packageName: string) // "Multiple binary targets found in Cargo.toml. ..."

  /** The string-valued keys the resolver reads. */
  datatype Key = Name | Path | DefaultRun

  function KeyText(k: Key): string {
    match k
    case Name => "name"
    case Path => "path"
    case DefaultRun => "default-run"
  }

  const AutobinsKey := "autobins"

  /** A trimmed line of the manifest, as the loops tell lines apart. */
  datatype Line =
    | PackageHeaderLine
    | BinHeaderLine
    | OtherHeaderLine        // any other line starting with `[`
    | Entry(name: Option<string>, path: Option<string>, defaultRun: Option<string>, autobins: Option<bool>)

  /** What an entry sets for `k`, if anything. */
  function Get(l: Line, k: Key): Option<string>
    requires l.Entry?
  {
    match k
    case Name => l.name
    case Path => l.path
    case DefaultRun => l.defaultRun
  }

  /** A trimmed line that opens a table (any table: `[dependencies]`,
      `[[bin]]`, `[package] # comment`, ...). */
  predicate IsTableHeader(t: string) {
    t != [] && t[0] == '['
  }

  /** Reads one trimmed line. */
  function ReadTrimmed(t: string): (l: Line)
    ensures l.Entry? <==> !IsTableHeader(t)
    ensures l == PackageHeaderLine <==> t == PackageHeader
    ensures l == BinHeaderLine <==> t == BinHeader
  {
    if t == PackageHeader then PackageHeaderLine
    else if t == BinHeader then BinHeaderLine
    else if IsTableHeader(t) then OtherHeaderLine
    else Entry(StringValue(t, KeyText(Name)), StringValue(t, KeyText(Path)),
               StringValue(t, KeyText(DefaultRun)), BoolValue(t, AutobinsKey))
  }

  /** A trimmed line that is not a header reads as an entry. */
  lemma EntryLine(t: string)
    requires !IsTableHeader(t)
    ensures ReadTrimmed(t) == Entry(StringValue(t, KeyText(Name)), StringValue(t, KeyText(Path)),
                                    StringValue(t, KeyText(DefaultRun)), BoolValue(t, AutobinsKey))
  {
  }

  /** Every line of the manifest, read. */
  function ReadLines(lines: seq<string>): (ls: seq<Line>)
    ensures |ls| == |lines|
  {
    if lines == [] then []
    else ReadLines(lines[..|lines| - 1]) + [ReadTrimmed(Trim(lines[|lines| - 1]))]
  }

  /** Line `i` of the manifest, read on its own. */
  lemma {:induction false} ReadLineAt(lines: seq<string>, i: nat)
    requires i < |lines|
    ensures ReadLines(lines)[i] == ReadTrimmed(Trim(lines[i]))
  {
    if i < |lines| - 1 {
      ReadLineAt(lines[..|lines| - 1], i);
    }
  }

  /** The tables the resolver reads: `[package]`, and the `index`-th
      `[[bin]]` (counting from 0). */
  datatype Section = PackageTable | BinTable(index: nat)

  // ---------------------------------------------------------------------
  // Which table a line is in.

  /** The last header among the first `i` lines. */
  function LastHeaderBefore(ls: seq<Line>, i: nat): (r: Option<nat>)
    requires i <= |ls|
    ensures r.Some? ==> r.value < i
  {
    if i == 0 then None
    else if !ls[i - 1].Entry? then Some(i - 1)
    else LastHeaderBefore(ls, i - 1)
  }

  /** It is a header, and none follows it; with no header at all, every line
      is an entry. */
  lemma {:induction false} LastHeaderIsLast(ls: seq<Line>, i: nat)
    requires i <= |ls|
    ensures LastHeaderBefore(ls, i).Some? ==>
      var h := LastHeaderBefore(ls, i).value;
      !ls[h].Entry? && forall k | h < k < i :: ls[k].Entry?
    ensures LastHeaderBefore(ls, i).None? ==> forall k | 0 <= k < i :: ls[k].Entry?
  {
    if i > 0 && ls[i - 1].Entry? {
      LastHeaderIsLast(ls, i - 1);
    }
  }

  /** How many `[[bin]]` lines are among the first `i`. */
  function BinHeadersBefore(ls: seq<Line>, i: nat): (r: nat)
    requires i <= |ls|
    ensures r <= i
  {
    if i == 0 then 0
    else BinHeadersBefore(ls, i - 1) + (if ls[i - 1] == BinHeaderLine then 1 else 0)
  }

  /** Line `i` (or the end, when `i == |ls|`) is in a `[[bin]]` table. */
  predicate InBinTable(ls: seq<Line>, i: nat)
    requires i <= |ls|
  {
    LastHeaderBefore(ls, i).Some? && ls[LastHeaderBefore(ls, i).value] == BinHeaderLine
  }

  /** Line `i` is in table `sec`: the last header above it opens `sec`. */
  predicate InSection(ls: seq<Line>, i: nat, sec: Section)
    requires i <= |ls|
  {
    if sec.PackageTable? then
      LastHeaderBefore(ls, i).Some? && ls[LastHeaderBefore(ls, i).value] == PackageHeaderLine
    else
      InBinTable(ls, i) && BinHeadersBefore(ls, i) == sec.index + 1
  }

  /** Line `i` sets `k` inside table `sec`. */
  predicate FieldAt(ls: seq<Line>, i: nat, k: Key, sec: Section) {
    i < |ls| && ls[i].Entry? && InSection(ls, i, sec) && Get(ls[i], k).Some?
  }

  /** The value of `k` in table `sec` among the first `n` lines: the one
      the first line that sets it gives (`FirstFieldIsFirst`). */
  function FirstField(ls: seq<Line>, k: Key, sec: Section, n: nat): Option<string>
    requires n <= |ls|
  {
    if n == 0 then None
    else
      var before := FirstField(ls, k, sec, n - 1);
      if before.Some? then before
      else if FieldAt(ls, n - 1, k, sec) then Get(ls[n - 1], k)
      else None
  }

  /** Line `i` is the first of the first `n` lines to set `k` in `sec`. */
  predicate FirstFieldAt(ls: seq<Line>, i: nat, k: Key, sec: Section) {
    FieldAt(ls, i, k, sec) && forall j | 0 <= j < i :: !FieldAt(ls, j, k, sec)
  }

  /** A field is found exactly when some line sets it, and its value is
      the one the first such line gives. */
  lemma {:induction false} FirstFieldIsFirst(ls: seq<Line>, k: Key, sec: Section, n: nat)
    requires n <= |ls|
    ensures FirstField(ls, k, sec, n).Some? <==> exists i | 0 <= i < n :: FieldAt(ls, i, k, sec)
    ensures forall i | 0 <= i < n && FirstFieldAt(ls, i, k, sec) :: FirstField(ls, k, sec, n) == Get(ls[i], k)
  {
    if n > 0 {
      FirstFieldIsFirst(ls, k, sec, n - 1);
      forall i | 0 <= i < n && FirstFieldAt(ls, i, k, sec)
        ensures FirstField(ls, k, sec, n) == Get(ls[i], k)
      {
        if i < n - 1 {
          assert FirstField(ls, k, sec, n - 1) == Get(ls[i], k);
        } else {
          assert FirstField(ls, k, sec, n - 1).None?;
        }
      }
    }
  }

  /** Line `i` sets `autobins` inside `[package]`. */
  predicate AutobinsAt(ls: seq<Line>, i: nat) {
    i < |ls| && ls[i].Entry? && InSection(ls, i, PackageTable) && ls[i].autobins.Some?
  }

  /** The `autobins` of `[package]` among the first `n` lines: the last line
      that sets it wins (`LastAutobinsIsLast`), and `d` holds when none does
      (`LastAutobinsDefault`). */
  function LastAutobins(ls: seq<Line>, n: nat, d: bool): bool
    requires n <= |ls|
  {
    if n == 0 then d
    else if AutobinsAt(ls, n - 1) then ls[n - 1].autobins.value
    else LastAutobins(ls, n - 1, d)
  }

  /** Line `i` is the last of the first `n` lines to set `autobins`. */
  predicate LastAutobinsAt(ls: seq<Line>, i: nat, n: nat) {
    AutobinsAt(ls, i) && forall j | i < j < n :: !AutobinsAt(ls, j)
  }

  /** With no line setting `autobins`, the default stands. */
  lemma {:induction false} LastAutobinsDefault(ls: seq<Line>, n: nat, d: bool)
    requires n <= |ls| && forall i | 0 <= i < n :: !AutobinsAt(ls, i)
    ensures LastAutobins(ls, n, d) == d
  {
    if n > 0 {
      LastAutobinsDefault(ls, n - 1, d);
    }
  }

  /** Otherwise the last line that sets it gives the value. */
  lemma {:induction false} LastAutobinsIsLast(ls: seq<Line>, i: nat, n: nat, d: bool)
    requires i < n <= |ls| && LastAutobinsAt(ls, i, n)
    ensures Some(LastAutobins(ls, n, d)) == ls[i].autobins
  {
    if i < n - 1 {
      assert !AutobinsAt(ls, n - 1);
      assert LastAutobinsAt(ls, i, n - 1);
      LastAutobinsIsLast(ls, i, n - 1, d);
    }
  }

  // ---------------------------------------------------------------------
  // `get_package_name`

  /** `get_package_name` on the manifest's lines: the first `name` set
      inside `[package]`, an error when there is none. */
  function PackageName(ls: seq<Line>): (r: Result<string, ManifestError>)
    ensures r.Ok? <==> FirstField(ls, Name, PackageTable, |ls|).Some?
    ensures r.Err? ==> r.error == NoPackageName
  {
    match FirstField(ls, Name, PackageTable, |ls|)
    case None => Err(NoPackageName)
    case Some(n) => Ok(n)
  }

  /** The package name is the value of the first line inside `[package]`
      that sets `name`; there is none exactly when no such line exists. */
  lemma PackageNameIsFirstName(ls: seq<Line>)
    ensures PackageName(ls).Ok? <==> exists i | 0 <= i < |ls| :: FieldAt(ls, i, Name, PackageTable)
    ensures forall i | 0 <= i < |ls| && FirstFieldAt(ls, i, Name, PackageTable) ::
      PackageName(ls) == Ok(ls[i].name.value)
  {
    FirstFieldIsFirst(ls, Name, PackageTable, |ls|);
  }

  /** The locals of the `get_package_name` loop: its `in_package_section`
      flag, and the name it returns with once one is found. */
  datatype PackageState = PackageState(inPackage: bool, name: Option<string>)

  /** The loop body for one line; once a name is found, the loop is over. */
  function PackageLineStep(s: PackageState, l: Line): PackageState {
    if s.name.Some? then s
    else
      match l
      case PackageHeaderLine => PackageState(true, None)
      case BinHeaderLine => PackageState(false, None)
      case OtherHeaderLine => PackageState(false, None)
      case Entry(name, _, _, _) => PackageState(s.inPackage, if s.inPackage then name else None)
  }

  /** The loop state after the first `n` lines. */
  function PackageUpTo(ls: seq<Line>, n: nat): PackageState
    requires n <= |ls|
  {
    if n == 0 then PackageState(false, None) else PackageLineStep(PackageUpTo(ls, n - 1), ls[n - 1])
  }

  /** The name the loop holds is the first `name` inside `[package]`, and
      until it holds one, its flag says whether the next line is inside
      `[package]`. */
  lemma {:induction false} PackageUpToSections(ls: seq<Line>, n: nat)
    requires n <= |ls|
    ensures PackageUpTo(ls, n).name == FirstField(ls, Name, PackageTable, n)
    ensures PackageUpTo(ls, n).name.None? ==> PackageUpTo(ls, n).inPackage == InSection(ls, n, PackageTable)
  {
    if n > 0 {
      PackageUpToSections(ls, n - 1);
    }
  }

  /** The loop state over one more line of the manifest. */
  lemma PackageNext(lines: seq<string>, i: nat)
    requires i < |lines|
    ensures PackageUpTo(ReadLines(lines), i + 1) ==
      PackageLineStep(PackageUpTo(ReadLines(lines), i), ReadTrimmed(Trim(lines[i])))
  {
    ReadLineAt(lines, i);
  }

  /** Once a name is found, later lines leave the state as it is. */
  lemma {:induction false} PackageFoundStays(ls: seq<Line>, i: nat, n: nat)
    requires i <= n <= |ls| && PackageUpTo(ls, i).name.Some?
    ensures PackageUpTo(ls, n) == PackageUpTo(ls, i)
    decreases n
  {
    if i < n {
      PackageFoundStays(ls, i, n - 1);
    }
  }

  /** Where the loop stops, early or at the end, it holds its final state. */
  lemma PackageLoopEnd(lines: seq<string>, i: nat)
    requires i <= |lines|
    requires i < |lines| ==> PackageUpTo(ReadLines(lines), i).name.Some?
    ensures PackageUpTo(ReadLines(lines), i) == PackageUpTo(ReadLines(lines), |lines|)
  {
    if i < |lines| {
      PackageFoundStays(ReadLines(lines), i, |lines|);
    }
  }

  // ---------------------------------------------------------------------
  // The `get_binary_name` scan.

  /** The locals of the `get_binary_name` loop. */
  datatype ScanState = ScanState(
    inPackage: bool,
    inBin: bool,
    defaultRun: Option<string>,
    autobins: bool,
    bins: seq<BinTarget>)

  const Start := ScanState(false, false, None, true, [])

  /** The loop body for one line. */
  function ScanLine(st: ScanState, l: Line): ScanState {
    match l
    case PackageHeaderLine => st.(inPackage := true, inBin := false)
    case BinHeaderLine => st.(inPackage := false, inBin := true, bins := st.bins + [BinTarget(None, None)])
    case OtherHeaderLine => st.(inPackage := false, inBin := false)
    case Entry(name, path, defaultRun, autobins) =>
      SetBinFields(SetPackageFields(st, defaultRun, autobins), name, path)
  }

  /** An entry inside `[package]`: the first `default-run` stays, the
      latest `autobins` replaces the earlier one. */
  function SetPackageFields(st: ScanState, defaultRun: Option<string>, autobins: Option<bool>): ScanState {
    if st.inPackage then
      st.(defaultRun := if st.defaultRun.None? then defaultRun else st.defaultRun,
          autobins := if autobins.Some? then autobins.value else st.autobins)
    else st
  }

  /** An entry inside a `[[bin]]` table: fills in the `name` and `path` of
      the latest record where they are still missing. */
  function SetBinFields(st: ScanState, name: Option<string>, path: Option<string>): ScanState {
    if st.inBin && st.bins != [] then
      var last := st.bins[|st.bins| - 1];
      var updated := BinTarget(
        if last.name.None? then name else last.name,
        if last.path.None? then path else last.path);
      st.(bins := st.bins[..|st.bins| - 1] + [updated])
    else st
  }

  /** The loop state after the first `n` lines. */
  function ScanUpTo(ls: seq<Line>, n: nat): ScanState
    requires n <= |ls|
  {
    if n == 0 then Start else ScanLine(ScanUpTo(ls, n - 1), ls[n - 1])
  }

  /** The count of `[[bin]]` lines never decreases. */
  lemma {:induction false} BinHeadersMonotone(ls: seq<Line>, i: nat, n: nat)
    requires i <= n <= |ls|
    ensures BinHeadersBefore(ls, i) <= BinHeadersBefore(ls, n)
    decreases n
  {
    if i < n {
      BinHeadersMonotone(ls, i, n - 1);
    }
  }

  /** Inside a `[[bin]]` table at least one `[[bin]]` line was read. */
  lemma InBinCounted(ls: seq<Line>, n: nat)
    requires n <= |ls| && InBinTable(ls, n)
    ensures BinHeadersBefore(ls, n) >= 1
  {
    var h := LastHeaderBefore(ls, n).value;
    assert ls[h] == BinHeaderLine;
    assert BinHeadersBefore(ls, h + 1) >= 1;
    BinHeadersMonotone(ls, h + 1, n);
  }

  /** The two flags and the number of records the scan keeps are the table
      the next line is in and the number of `[[bin]]` lines read. */
  lemma {:induction false} ScanSections(ls: seq<Line>, n: nat)
    requires n <= |ls|
    ensures ScanUpTo(ls, n).inPackage == InSection(ls, n, PackageTable)
    ensures ScanUpTo(ls, n).inBin == InBinTable(ls, n)
    ensures |ScanUpTo(ls, n).bins| == BinHeadersBefore(ls, n)
    decreases n
  {
    if n > 0 {
      ScanSections(ls, n - 1);
    }
  }

  /** The `[package]` fields the scan keeps: the first `default-run`, and
      the last `autobins`, `true` when none is given. */
  lemma {:induction false} ScanPackage(ls: seq<Line>, n: nat)
    requires n <= |ls|
    ensures ScanUpTo(ls, n).defaultRun == FirstField(ls, DefaultRun, PackageTable, n)
    ensures ScanUpTo(ls, n).autobins == LastAutobins(ls, n, true)
    decreases n
  {
    if n > 0 {
      ScanPackage(ls, n - 1);
      ScanSections(ls, n - 1);
    }
  }

  /** A `[[bin]]` line opens a table no earlier line belongs to. */
  lemma FreshBinEmpty(ls: seq<Line>, n: nat, k: Key)
    requires n < |ls| && ls[n] == BinHeaderLine
    ensures FirstField(ls, k, BinTable(BinHeadersBefore(ls, n)), n + 1) == None
  {
    var sec := BinTable(BinHeadersBefore(ls, n));
    forall i | 0 <= i < n + 1
      ensures !FieldAt(ls, i, k, sec)
    {
      BinHeadersMonotone(ls, i, n);
    }
    FirstFieldIsFirst(ls, k, sec, n + 1);
  }

  /** One line of the scan keeps each `[[bin]]` record equal to the first
      `name` and `path` of its table, given that the records so far are. */
  lemma ScanBinAt(ls: seq<Line>, m: nat, j: nat)
    requires m < |ls| && j < |ScanUpTo(ls, m + 1).bins|
    requires forall k | 0 <= k < |ScanUpTo(ls, m).bins| ::
      ScanUpTo(ls, m).bins[k] == BinTarget(FirstField(ls, Name, BinTable(k), m), FirstField(ls, Path, BinTable(k), m))
    ensures ScanUpTo(ls, m + 1).bins[j] ==
      BinTarget(FirstField(ls, Name, BinTable(j), m + 1), FirstField(ls, Path, BinTable(j), m + 1))
  {
    ScanSections(ls, m);
    var st := ScanUpTo(ls, m);
    if ls[m] == BinHeaderLine && j == |st.bins| {
      FreshBinEmpty(ls, m, Name);
      FreshBinEmpty(ls, m, Path);
    } else if ls[m].Entry? && st.inBin {
      InBinCounted(ls, m);
    }
  }

  /** The record for the `j`-th `[[bin]]` holds the first `name` and the
      first `path` set inside that table. */
  lemma {:induction false} ScanBins(ls: seq<Line>, n: nat)
    requires n <= |ls|
    ensures forall j | 0 <= j < |ScanUpTo(ls, n).bins| ::
      ScanUpTo(ls, n).bins[j] == BinTarget(FirstField(ls, Name, BinTable(j), n), FirstField(ls, Path, BinTable(j), n))
    decreases n
  {
    if n > 0 {
      ScanBins(ls, n - 1);
      forall j | 0 <= j < |ScanUpTo(ls, n).bins|
        ensures ScanUpTo(ls, n).bins[j] ==
          BinTarget(FirstField(ls, Name, BinTable(j), n), FirstField(ls, Path, BinTable(j), n))
      {
        ScanBinAt(ls, n - 1, j);
      }
    }
  }

  /** An entry in any table other than `[package]` and `[[bin]]` changes
      nothing. */
  lemma OtherTableKeeps(ls: seq<Line>, n: nat)
    requires n < |ls| && ls[n].Entry? && !InSection(ls, n, PackageTable) && !InBinTable(ls, n)
    ensures ScanUpTo(ls, n + 1) == ScanUpTo(ls, n)
  {
    ScanSections(ls, n);
  }

  /** The whole scan, stated without the loop. */
  lemma ScanMatchesSections(ls: seq<Line>)
    ensures ScanUpTo(ls, |ls|).defaultRun == FirstField(ls, DefaultRun, PackageTable, |ls|)
    ensures ScanUpTo(ls, |ls|).autobins == LastAutobins(ls, |ls|, true)
    ensures |ScanUpTo(ls, |ls|).bins| == BinHeadersBefore(ls, |ls|)
    ensures forall j | 0 <= j < |ScanUpTo(ls, |ls|).bins| ::
      ScanUpTo(ls, |ls|).bins[j] ==
        BinTarget(FirstField(ls, Name, BinTable(j), |ls|), FirstField(ls, Path, BinTable(j), |ls|))
  {
    ScanPackage(ls, |ls|);
    ScanSections(ls, |ls|);
    ScanBins(ls, |ls|);
  }

  // ---------------------------------------------------------------------
  // Choosing the binary.

  /** The names of the `[[bin]]` tables that have one, in order. */
  function BinNames(bins: seq<BinTarget>): (r: seq<string>)
    ensures |r| <= |bins|
    ensures forall n :: n in r <==> exists j | 0 <= j < |bins| :: bins[j].name == Some(n)
  {
    if bins == [] then []
    else (if bins[0].name.Some? then [bins[0].name.value] else []) + BinNames(bins[1..])
  }

  /** A `[[bin]]` with a name whose path is the crate's main source file. */
  predicate IsMainBin(b: BinTarget) {
    b.name.Some? && b.path.Some? && IsMainSourcePath(b.path.value)
  }

  /** The names of the main-source bins, in order. */
  function MainBinNames(bins: seq<BinTarget>): (r: seq<string>)
    ensures |r| <= |bins|
  {
    if bins == [] then []
    else (if IsMainBin(bins[0]) then [bins[0].name.value] else []) + MainBinNames(bins[1..])
  }

  /** Bin `j` is the one and only main-source bin. */
  predicate OnlyMainBin(bins: seq<BinTarget>, j: int) {
    0 <= j < |bins| && IsMainBin(bins[j]) && forall k | 0 <= k < |bins| && IsMainBin(bins[k]) :: k == j
  }

  /** No bin is a main-source bin. */
  predicate NoMainBin(bins: seq<BinTarget>) {
    forall k | 0 <= k < |bins| :: !IsMainBin(bins[k])
  }

  /** The list of main-source names is empty exactly when no bin is one, and
      has one element exactly when one bin is, that bin's name. */
  lemma {:induction false} MainBinNamesCount(bins: seq<BinTarget>)
    ensures MainBinNames(bins) == [] <==> NoMainBin(bins)
    ensures |MainBinNames(bins)| == 1 <==> exists j :: OnlyMainBin(bins, j)
    ensures forall j | OnlyMainBin(bins, j) :: MainBinNames(bins) == [bins[j].name.value]
  {
    if bins != [] {
      var tail := bins[1..];
      MainBinNamesCount(tail);
      if IsMainBin(bins[0]) {
        assert OnlyMainBin(bins, 0) <==> NoMainBin(tail);
        forall j | OnlyMainBin(bins, j) ensures j == 0 { }
        if exists j :: OnlyMainBin(bins, j) {
          assert OnlyMainBin(bins, 0);
        }
      } else {
        assert NoMainBin(bins) <==> NoMainBin(tail);
        forall j | OnlyMainBin(bins, j) ensures OnlyMainBin(tail, j - 1) {
        }
        if exists j :: OnlyMainBin(tail, j) {
          var j :| OnlyMainBin(tail, j);
          assert OnlyMainBin(bins, j + 1);
        }
      }
    }
  }

  /** `get_explicit_main_bin_name`: the name of the one bin whose path is the
      main source file, when exactly one such named bin exists. */
  function ExplicitMainBinName(bins: seq<BinTarget>): (r: Option<string>)
    ensures r.Some? <==> exists j :: OnlyMainBin(bins, j)
    ensures forall j | OnlyMainBin(bins, j) :: r == Some(bins[j].name.value)
  {
    MainBinNamesCount(bins);
    var names := MainBinNames(bins);
    if |names| == 1 then Some(names[0]) else None
  }

  /** The priority chain at the end of `get_binary_name`. A name comes from
      `default-run`, from the package name, or from a declared bin; the only
      failure is several named bins with nothing to choose between them. */
  function ResolveArtifact(pkg: string, defaultRun: Option<string>, autobins: bool,
                           bins: seq<BinTarget>, mainExists: bool): (r: Result<string, ManifestError>)
    ensures defaultRun.Some? ==> r == Ok(defaultRun.value)
    ensures r.Ok? ==> Some(r.value) == defaultRun || r.value == pkg || r.value in BinNames(bins)
    ensures r.Err? <==>
      defaultRun.None? && ExplicitMainBinName(bins).None? && pkg !in BinNames(bins)
      && !(autobins && mainExists) && |BinNames(bins)| > 1
    ensures r.Err? ==> r.error == MultipleBinaryTargets(pkg)
  {
    if defaultRun.Some? then Ok(defaultRun.value)
    else if ExplicitMainBinName(bins).Some? then
      var j :| OnlyMainBin(bins, j);
      assert bins[j].name.value in BinNames(bins);
      Ok(ExplicitMainBinName(bins).value)
    else if pkg in BinNames(bins) then Ok(pkg)
    else if autobins && mainExists then Ok(pkg)
    else
      var names := BinNames(bins);
      if |names| == 1 then Ok(names[0])
      else if |names| > 1 then Err(MultipleBinaryTargets(pkg))
      else Ok(pkg)
  }

  /** Without `default-run`, the rest of the chain rung by rung: the one
      main-source bin; else (no main-source bin, or several) the package
      name when a bin is named after it or when `autobins` is on and
      `src/main.rs` exists; else the single named bin; else, with no named
      bin, the package name. The error rung is `ResolveSeveralNamed`. */
  lemma ResolvePriority(pkg: string, autobins: bool, bins: seq<BinTarget>, mainExists: bool)
    ensures forall j | OnlyMainBin(bins, j) ::
      ResolveArtifact(pkg, None, autobins, bins, mainExists) == Ok(bins[j].name.value)
    ensures NotOneMainBin(bins) && (exists j | 0 <= j < |bins| :: bins[j].name == Some(pkg)) ==>
      ResolveArtifact(pkg, None, autobins, bins, mainExists) == Ok(pkg)
    ensures NotOneMainBin(bins) && autobins && mainExists ==>
      ResolveArtifact(pkg, None, autobins, bins, mainExists) == Ok(pkg)
    ensures forall j | NotOneMainBin(bins) && !(autobins && mainExists) && OnlyNamedBin(bins, j) && bins[j].name != Some(pkg) ::
      ResolveArtifact(pkg, None, autobins, bins, mainExists) == Ok(bins[j].name.value)
    ensures (forall j | 0 <= j < |bins| :: bins[j].name.None?) ==>
      ResolveArtifact(pkg, None, autobins, bins, mainExists) == Ok(pkg)
  {
    MainBinNamesCount(bins);
    forall j | OnlyNamedBin(bins, j) ensures BinNames(bins) == [bins[j].name.value] {
      BinNamesOne(bins, j);
    }
    if forall j | 0 <= j < |bins| :: bins[j].name.None? {
      BinNamesNone(bins);
    }
  }

  /** Two named bins, even with the same name, make two collected names. */
  lemma {:induction false} TwoNamed(bins: seq<BinTarget>, i: nat, j: nat)
    requires i < j < |bins| && bins[i].name.Some? && bins[j].name.Some?
    ensures |BinNames(bins)| >= 2
    decreases i
  {
    var tail := bins[1..];
    assert tail[j - 1] == bins[j];
    if i == 0 {
      assert bins[j].name.value in BinNames(tail);
    } else {
      assert tail[i - 1] == bins[i];
      TwoNamed(tail, i - 1, j - 1);
    }
  }

  /** The error rung: no `default-run`, not exactly one main-source bin, no
      bin named after the package, not both `autobins` and `src/main.rs`,
      and two named bins (even with the same name). */
  lemma ResolveSeveralNamed(pkg: string, autobins: bool, bins: seq<BinTarget>, mainExists: bool, i: nat, j: nat)
    requires NotOneMainBin(bins) && NoBinNamed(bins, pkg) && !(autobins && mainExists)
    requires i < j < |bins| && bins[i].name.Some? && bins[j].name.Some?
    ensures ResolveArtifact(pkg, None, autobins, bins, mainExists) == Err(MultipleBinaryTargets(pkg))
  {
    MainBinNamesCount(bins);
    TwoNamed(bins, i, j);
  }

  /** There is not exactly one main-source bin: none, or several. */
  predicate NotOneMainBin(bins: seq<BinTarget>) {
    forall j | 0 <= j < |bins| :: !OnlyMainBin(bins, j)
  }

  /** No bin is named `n`. */
  predicate NoBinNamed(bins: seq<BinTarget>, n: string) {
    forall k | 0 <= k < |bins| :: bins[k].name != Some(n)
  }

  /** Bin `j` is the one and only bin with a name. */
  predicate OnlyNamedBin(bins: seq<BinTarget>, j: int) {
    0 <= j < |bins| && bins[j].name.Some? && forall k | 0 <= k < |bins| && bins[k].name.Some? :: k == j
  }

  /** With one named bin, its name is the only one. */
  lemma {:induction false} BinNamesOne(bins: seq<BinTarget>, j: int)
    requires OnlyNamedBin(bins, j)
    ensures BinNames(bins) == [bins[j].name.value]
    decreases |bins|
  {
    var tail := bins[1..];
    if j == 0 {
      assert forall k | 0 <= k < |tail| :: tail[k] == bins[k + 1];
      BinNamesNone(tail);
    } else {
      assert OnlyNamedBin(tail, j - 1) by {
        assert forall k | 0 <= k < |tail| :: tail[k] == bins[k + 1];
      }
      BinNamesOne(tail, j - 1);
    }
  }

  /** Bins without names contribute no names. */
  lemma {:induction false} BinNamesNone(bins: seq<BinTarget>)
    requires forall j | 0 <= j < |bins| :: bins[j].name.None?
    ensures BinNames(bins) == []
  {
    if bins != [] {
      BinNamesNone(bins[1..]);
    }
  }

  /** `get_binary_name`: the package name first (its error passes through),
      then the scan, then the priority chain. */
  function BinaryName(ls: seq<Line>, mainExists: bool): Result<string, ManifestError> {
    match PackageName(ls)
    case Err(e) => Err(e)
    case Ok(pkg) =>
      var st := ScanUpTo(ls, |ls|);
      ResolveArtifact(pkg, st.defaultRun, st.autobins, st.bins, mainExists)
  }

  /** The scan over one more line of the manifest. */
  lemma ScanNext(lines: seq<string>, i: nat)
    requires i < |lines|
    ensures ScanUpTo(ReadLines(lines), i + 1) == ScanLine(ScanUpTo(ReadLines(lines), i), ReadTrimmed(Trim(lines[i])))
  {
    ReadLineAt(lines, i);
  }

  /** What `get_binary_name` can answer: an error exactly when `[package]`
      has no name or several bins are named with nothing to choose between
      them; otherwise the first `default-run` of `[package]`, the package
      name, or the first name given in one of the `[[bin]]` tables. */
  lemma BinaryNameSources(ls: seq<Line>, mainExists: bool)
    ensures BinaryName(ls, mainExists) == Err(NoPackageName) <==> PackageName(ls).Err?
    ensures BinaryName(ls, mainExists).Ok? ==>
      Some(BinaryName(ls, mainExists).value) == FirstField(ls, DefaultRun, PackageTable, |ls|)
      || BinaryName(ls, mainExists) == PackageName(ls)
      || exists j: nat :: Some(BinaryName(ls, mainExists).value) == FirstField(ls, Name, BinTable(j), |ls|)
  {
    var o := BinaryName(ls, mainExists);
    if PackageName(ls).Ok? {
      var pkg := PackageName(ls).value;
      ScanMatchesSections(ls);
      var st := ScanUpTo(ls, |ls|);
      assert o == ResolveArtifact(pkg, st.defaultRun, st.autobins, st.bins, mainExists);
      if o.Ok? && Some(o.value) != st.defaultRun && o.value != pkg {
        var v := o.value;
        assert v in BinNames(st.bins);
        var j :| 0 <= j < |st.bins| && st.bins[j].name == Some(v);
        assert Some(v) == FirstField(ls, Name, BinTable(j), |ls|);
      }
    }
  }
}
