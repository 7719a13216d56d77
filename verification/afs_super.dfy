/**
 * The kAFS mount source and its printers (fs/afs/super.c): parsing a
 * source such as "%cell:volume.readonly" into a cell, a volume name and a
 * volume type; printing the device name and the mount options back for
 * /proc/mounts; and the block counts reported by statfs.
 *
 * Cell lookup is an oracle: a function from a cell name to a cell or an
 * error. Strings are C strings without their terminator.
 */
module AfsSuper {
  import opened KernelTypes

  datatype VolumeType = RWVol | ROVol | BackVol

  datatype FlockMode = FlockUnset | FlockLocal | FlockOpenAfs | FlockStrict | FlockWrite

  /** A cell record; only its name is used here. */
  datatype Cell = Cell(name: string)

  /** What afs_lookup_cell answers for a name. */
  datatype CellLookup = FoundCell(cell: Cell) | CellError(e: Errno)

  type CellOracle = string -> CellLookup

  /**
   * The parts of struct afs_fs_context the source sets. `volName` is the
   * text after the cell separator, suffix included; its first `volNameSz`
   * characters name the volume.
   */
  datatype FsContext = FsContext(
    volType: VolumeType,
    force: bool,
    noCell: bool,
    cell: Option<Cell>,
    volName: string,
    volNameSz: nat,
    source: Option<string>)

  /** The context afs_init_fs_context starts from, with the workstation cell if there is one. */
  function InitialContext(workstation: Option<Cell>): FsContext {
    FsContext(ROVol, false, false, workstation, "", 0, None)
  }

  // ---------------------------------------------------------------------
  // String helpers

  predicate CString(s: string) {
    '\0' !in s
  }

  /** strchr: the position of the first c, if any. */
  function FirstIndexOf(s: string, c: char): (r: Option<nat>)
    ensures r.None? <==> c !in s
    ensures r.Some? ==> r.value < |s| && s[r.value] == c
    ensures r.Some? ==> forall k :: 0 <= k < r.value ==> s[k] != c
  {
    if s == [] then None
    else if s[0] == c then Some(0)
    else
      match FirstIndexOf(s[1..], c)
      case None => None
      case Some(i) => Some(i + 1)
  }

  /** strrchr: the position of the last c, if any. */
  function LastIndexOf(s: string, c: char): (r: Option<nat>)
    ensures r.None? <==> c !in s
    ensures r.Some? ==> r.value < |s| && s[r.value] == c
    ensures r.Some? ==> forall k :: r.value < k < |s| ==> s[k] != c
  {
    if s == [] then None
    else if s[|s| - 1] == c then Some(|s| - 1)
    else
      var p := s[..|s| - 1];
      assert s == p + [s[|s| - 1]];
      LastIndexOf(p, c)
  }

  // ---------------------------------------------------------------------
  // afs_parse_source

  /**
   * The outcome of parsing a source, with the context the parser leaves
   * behind: an error does not undo the fields already written.
   */
  datatype ParseResult = Parsed(ctx: FsContext) | ParseError(e: Errno, ctx: FsContext)

  /** Whether a source has the "%..." or "#..." form with at least one character after the prefix. */
  predicate HasVolumePrefix(name: string) {
    |name| >= 2 && (name[0] == '%' || name[0] == '#')
  }

  /**
   * The cell name and the volume text of what follows the prefix: split
   * at the first ':', or no cell name and the whole text.
   */
  function SplitCell(rest: string): (r: (Option<string>, string))
    ensures ':' !in rest ==> r == (None, rest)
    ensures ':' in rest ==> r.0.Some? && rest == r.0.value + ":" + r.1 && ':' !in r.0.value
  {
    match FirstIndexOf(rest, ':')
    case None => (None, rest)
    case Some(i) =>
      assert rest == rest[..i] + ":" + rest[i + 1..];
      (Some(rest[..i]), rest[i + 1..])
  }

  /** The volume type a volume-name suffix forces, if it forces one. */
  function SuffixType(suffix: string): Option<VolumeType> {
    if suffix == ".readonly" then Some(ROVol)
    else if suffix == ".backup" then Some(BackVol)
    else None
  }

  /** The text from the last '.' of a volume name on, if it has one. */
  function DotSuffix(volName: string): Option<string> {
    match LastIndexOf(volName, '.')
    case None => None
    case Some(j) => Some(volName[j..])
  }

  /**
   * Whether the parser cuts the text from the last '.' off a volume name:
   * it does when that text is ".readonly", ".backup" or a bare ".".
   */
  predicate CutsSuffix(volName: string) {
    match DotSuffix(volName)
    case None => false
    case Some(suffix) => SuffixType(suffix).Some? || suffix == "."
  }

  /**
   * The length of the volume name proper: up to the last '.' when what
   * follows it is "readonly", "backup" or nothing; the whole text otherwise.
   */
  function VolumeNameLength(volName: string): (n: nat)
    ensures n <= |volName|
  {
    match LastIndexOf(volName, '.')
    case None => |volName|
    case Some(j) =>
      var suffix := volName[j..];
      if SuffixType(suffix).Some? || suffix == "." then j else |volName|
  }

  /** The type and force flag after the suffix: a ".readonly" or ".backup" suffix forces its type. */
  function ApplySuffix(ctx: FsContext, volName: string): FsContext {
    match DotSuffix(volName)
    case None => ctx
    case Some(suffix) =>
      match SuffixType(suffix)
      case None => ctx
      case Some(t) => ctx.(volType := t, force := true)
  }

  /**
   * afs_parse_source: the source must be "%" or "#" followed by at least
   * one character, or else exactly "none" (no cell); '%' selects a forced
   * read/write volume, '#' keeps the context's type; an optional "cell:"
   * names the cell, looked up through the oracle; a ".readonly" or
   * ".backup" suffix forces that type.
   */
  function ParseSource(ctx: FsContext, name: Option<string>, lookup: CellOracle): (r: ParseResult)
    requires name.Some? ==> CString(name.value)
    ensures name.None? ==> r == ParseError(EINVAL, ctx)
    ensures name.Some? && !HasVolumePrefix(name.value) ==>
              r == (if name.value == "none" then Parsed(ctx.(noCell := true)) else ParseError(EINVAL, ctx))
    ensures name.Some? && HasVolumePrefix(name.value) ==> r == ParseVolumeSource(ctx, name.value, lookup)
  {
    if name.None? then ParseError(EINVAL, ctx)
    else if !HasVolumePrefix(name.value) then
      if name.value == "none" then Parsed(ctx.(noCell := true)) else ParseError(EINVAL, ctx)
    else ParseVolumeSource(ctx, name.value, lookup)
  }

  /** The volume text is what remains after the cell name and its separator. */
  lemma VolumeTextIsTail(rest: string)
    ensures |SplitCell(rest).1| <= |rest|
    ensures SplitCell(rest).1 == rest[|rest| - |SplitCell(rest).1|..]
  {
    var (cell, v) := SplitCell(rest);
    if cell.Some? {
      var a := cell.value;
      assert rest == a + ":" + v;
      assert rest[|a| + 1..] == v;
    }
  }

  /** The type and force flag the source's first character selects: '%' forces read/write. */
  function PrefixContext(ctx: FsContext, prefix: char): FsContext {
    if prefix == '%' then ctx.(volType := RWVol, force := true) else ctx
  }

  /**
   * The volume part of a source: the text after the cell separator, the
   * length of the name proper, and the type its prefix and suffix select.
   */
  function VolumeContext(ctx: FsContext, s: string): (c: FsContext)
    requires HasVolumePrefix(s)
    ensures c.volName == SplitCell(s[1..]).1
    ensures c.volNameSz <= |c.volName| < |s| && c.volName == s[|s| - |c.volName|..]
    ensures c.noCell == ctx.noCell && c.cell == ctx.cell
    ensures var t := ApplySuffix(PrefixContext(ctx, s[0]), c.volName);
            c.volType == t.volType && c.force == t.force
  {
    var rest := s[1..];
    var volName := SplitCell(rest).1;
    VolumeTextIsTail(rest);
    var k := |rest| - |volName|;
    assert rest[k..] == s[1 + k..];
    ApplySuffix(PrefixContext(ctx, s[0]), volName).(volName := volName, volNameSz := VolumeNameLength(volName))
  }

  /**
   * afs_parse_source past the prefix check: the cell, the volume name and
   * its type. The type, force flag and volume name are written before the
   * cell is looked up, so a failed lookup leaves them in the context while
   * the cell and the source stay as they were.
   */
  function ParseVolumeSource(ctx: FsContext, s: string, lookup: CellOracle): (r: ParseResult)
    requires HasVolumePrefix(s)
    ensures r.ParseError? <==> SplitCell(s[1..]).0.Some? && lookup(SplitCell(s[1..]).0.value).CellError?
    ensures r.ParseError? ==> r.e == lookup(SplitCell(s[1..]).0.value).e
    ensures r.ctx == VolumeContext(ctx, s).(cell := r.ctx.cell, source := r.ctx.source)
    ensures r.ParseError? ==> r.ctx.cell == ctx.cell && r.ctx.source == ctx.source
    ensures r.Parsed? ==> r.ctx.source == Some(s)
  {
    var c := VolumeContext(ctx, s);
    match SplitCell(s[1..]).0
    case None => Parsed(c.(source := Some(s)))
    case Some(cn) =>
      match lookup(cn)
      case CellError(e) => ParseError(e, c)
      case FoundCell(cell) => Parsed(c.(cell := Some(cell), source := Some(s)))
  }

  /**
   * The cell of a well-formed source: without a ':' no cell is looked up
   * and the context's cell is kept; with one, the text before the first
   * ':' is looked up, a failed lookup is the result, and the volume text
   * is what follows that ':'.
   */
  lemma ParseSourceCell(ctx: FsContext, s: string, lookup: CellOracle)
    requires CString(s) && HasVolumePrefix(s)
    ensures var r := ParseSource(ctx, Some(s), lookup);
            && (':' !in s[1..] ==> r.Parsed? && r.ctx.cell == ctx.cell && r.ctx.volName == s[1..])
            && (':' in s[1..] ==>
                  var cn := SplitCell(s[1..]).0.value;
                  && s[1..] == cn + ":" + SplitCell(s[1..]).1
                  && ':' !in cn
                  && (lookup(cn).CellError? ==>
                        && r.ParseError? && r.e == lookup(cn).e
                        && r.ctx.cell == ctx.cell && r.ctx.volName == SplitCell(s[1..]).1)
                  && (lookup(cn).FoundCell? ==>
                        r.Parsed? && r.ctx.cell == Some(lookup(cn).cell) && r.ctx.volName == SplitCell(s[1..]).1))
  {
  }

  /**
   * The volume type of a well-formed source, whether or not its cell is
   * found: a ".readonly" or ".backup" suffix forces its type; otherwise
   * '%' forces read/write and '#' keeps the context's type and force flag.
   */
  lemma ParseSourceType(ctx: FsContext, s: string, lookup: CellOracle)
    requires CString(s) && HasVolumePrefix(s)
    ensures var r := ParseSource(ctx, Some(s), lookup).ctx;
            var suffix := DotSuffix(r.volName);
            && (suffix == Some(".readonly") ==> r.volType == ROVol && r.force)
            && (suffix == Some(".backup") ==> r.volType == BackVol && r.force)
            && (!(suffix.Some? && SuffixType(suffix.value).Some?) ==>
                  && (s[0] == '%' ==> r.volType == RWVol && r.force)
                  && (s[0] == '#' ==> r.volType == ctx.volType && r.force == ctx.force))
  {
    assert ParseSource(ctx, Some(s), lookup) == ParseVolumeSource(ctx, s, lookup);
    var r := ParseVolumeSource(ctx, s, lookup).ctx;
    var suffix := DotSuffix(r.volName);
    if suffix.Some? && SuffixType(suffix.value).Some? {
      assert r.volType == SuffixType(suffix.value).value && r.force;
    } else {
      assert r.volType == PrefixContext(ctx, s[0]).volType && r.force == PrefixContext(ctx, s[0]).force;
    }
  }

  /**
   * A '%' source whose cell lookup fails still leaves a forced read/write
   * type behind, so a following '#' source without a suffix, parsed in
   * the same context, selects a forced read/write volume rather than the
   * read-only default.
   */
  lemma RetryAfterFailedLookup(ctx: FsContext, s: string, t: string, lookup: CellOracle)
    requires CString(s) && HasVolumePrefix(s) && s[0] == '%' && '.' !in s
    requires ParseSource(ctx, Some(s), lookup).ParseError?
    requires CString(t) && HasVolumePrefix(t) && t[0] == '#' && '.' !in t
    ensures var c := ParseSource(ctx, Some(s), lookup).ctx;
            var r := ParseSource(c, Some(t), lookup);
            && c.volType == RWVol && c.force
            && r.ctx.volType == RWVol && r.ctx.force
  {
    var c := ParseSource(ctx, Some(s), lookup).ctx;
    VolumeTextIsTail(s[1..]);
    assert '.' !in c.volName by {
      assert forall k :: 0 <= k < |c.volName| ==> c.volName[k] == s[|s| - |c.volName| + k];
    }
    ParseSourceType(ctx, s, lookup);
    var r := ParseSource(c, Some(t), lookup);
    VolumeTextIsTail(t[1..]);
    assert '.' !in r.ctx.volName by {
      assert forall k :: 0 <= k < |r.ctx.volName| ==> r.ctx.volName[k] == t[|t| - |r.ctx.volName| + k];
    }
    ParseSourceType(c, t, lookup);
  }

  // ---------------------------------------------------------------------
  // afs_show_devname and afs_show_options

  /** What the printers know about a mounted volume. */
  datatype Mounted = Mounted(dynRoot: bool, cellName: string, volName: string, volType: VolumeType, typeForce: bool)

  /** '%' for a read/write volume, '#' for the others. */
  function DevnamePrefix(t: VolumeType): char {
    if t == RWVol then '%' else '#'
  }

  /** ".readonly" for a forced read-only volume, ".backup" for a backup, nothing otherwise. */
  function DevnameSuffix(t: VolumeType, typeForce: bool): string {
    match t
    case RWVol => ""
    case ROVol => if typeForce then ".readonly" else ""
    case BackVol => ".backup"
  }

  /** afs_show_devname: "none" for the dynamic root, else prefix, cell, ':', volume, suffix. */
  function ShowDevname(m: Mounted): (r: string)
    ensures m.dynRoot ==> r == "none"
    ensures !m.dynRoot ==> r == [DevnamePrefix(m.volType)] + m.cellName + ":" + m.volName + DevnameSuffix(m.volType, m.typeForce)
  {
    if m.dynRoot then "none"
    else [DevnamePrefix(m.volType)] + m.cellName + ":" + m.volName + DevnameSuffix(m.volType, m.typeForce)
  }

  /** A cell name without ':' is split off at the ':' that follows it. */
  lemma SplitAfterCellName(cn: string, tail: string)
    requires ':' !in cn
    ensures SplitCell(cn + ":" + tail) == (Some(cn), tail)
  {
    var rest := cn + ":" + tail;
    assert rest[|cn|] == ':';
    assert forall k :: 0 <= k < |cn| ==> rest[k] == cn[k];
    assert rest[..|cn|] == cn;
    assert rest[|cn| + 1..] == tail;
  }

  /**
   * A volume name followed by a printed suffix: a ".readonly" or
   * ".backup" suffix is the text from the last '.', whatever dots the name
   * holds, and is cut off again; with no suffix the name is kept whole
   * unless its own last '.' starts a text the parser cuts.
   */
  lemma SuffixAfterVolumeName(v: string, suf: string)
    requires suf == "" || suf == ".readonly" || suf == ".backup"
    ensures suf != "" ==> DotSuffix(v + suf) == Some(suf)
    ensures VolumeNameLength(v + suf) == |v| <==> suf != "" || !CutsSuffix(v)
    ensures (v + suf)[..|v|] == v
  {
    var w := v + suf;
    assert w[..|v|] == v;
    if suf != "" {
      assert w[|v|] == '.';
      assert forall k :: |v| < k < |w| ==> w[k] == suf[k - |v|];
      assert forall k :: 1 <= k < |suf| ==> suf[k] != '.';
      var j := LastIndexOf(w, '.');
      assert j == Some(|v|);
      assert w[|v|..] == suf;
    } else {
      assert w == v;
    }
  }

  /** The steps of ParseSource for a well-formed source that names a cell the oracle knows. */
  lemma ParseWithCell(ctx: FsContext, s: string, lookup: CellOracle, cn: string, v: string)
    requires CString(s) && HasVolumePrefix(s)
    requires SplitCell(s[1..]) == (Some(cn), v) && lookup(cn).FoundCell?
    ensures var c1 := if s[0] == '%' then ctx.(volType := RWVol, force := true) else ctx;
            ParseSource(ctx, Some(s), lookup)
              == Parsed(ApplySuffix(c1, v).(volName := v, volNameSz := VolumeNameLength(v),
                                            cell := Some(lookup(cn).cell), source := Some(s)))
  {
  }

  /** A printed device name is a C string when its parts are. */
  lemma DevnameIsCString(m: Mounted)
    requires CString(m.cellName) && CString(m.volName)
    ensures CString(ShowDevname(m))
  {
    var suf := DevnameSuffix(m.volType, m.typeForce);
    assert '\0' !in suf;
    if !m.dynRoot {
      var s := ShowDevname(m);
      assert forall c :: c in s ==> c == s[0] || c in m.cellName || c == ':' || c in m.volName || c in suf;
    }
  }

  /** The printed name is the prefix, then the cell name, ':' and the volume with its suffix. */
  lemma DevnameShape(m: Mounted)
    requires !m.dynRoot
    ensures var s := ShowDevname(m);
            && |s| >= 2 && s[0] == DevnamePrefix(m.volType)
            && s[1..] == m.cellName + ":" + (m.volName + DevnameSuffix(m.volType, m.typeForce))
  {
    var s := ShowDevname(m);
    assert s == [DevnamePrefix(m.volType)] + (m.cellName + ":" + (m.volName + DevnameSuffix(m.volType, m.typeForce)));
  }

  /** The type a printed suffix selects, on top of the type the printed prefix selects. */
  lemma SuffixSelectsType(ctx: FsContext, m: Mounted)
    requires ctx.volType == ROVol && !ctx.force
    requires DevnameSuffix(m.volType, m.typeForce) == "" ==> !CutsSuffix(m.volName)
    ensures var c1 := if DevnamePrefix(m.volType) == '%' then ctx.(volType := RWVol, force := true) else ctx;
            var c := ApplySuffix(c1, m.volName + DevnameSuffix(m.volType, m.typeForce));
            && c.volType == m.volType
            && (m.volType == ROVol ==> c.force == m.typeForce)
  {
    var suf := DevnameSuffix(m.volType, m.typeForce);
    SuffixAfterVolumeName(m.volName, suf);
  }

  /**
   * A device name parses back, from a fresh context, to the cell and
   * volume it was printed from, with the same volume type (and, for a
   * read-only volume, the same force flag), provided the cell name has no
   * ':' and, when nothing is printed after the volume name, the name does
   * not end in a text the parser cuts as a suffix.
   */
  lemma DevnameRoundTrip(m: Mounted, workstation: Option<Cell>, lookup: CellOracle)
    requires !m.dynRoot
    requires CString(m.cellName) && CString(m.volName)
    requires ':' !in m.cellName
    requires DevnameSuffix(m.volType, m.typeForce) == "" ==> !CutsSuffix(m.volName)
    requires lookup(m.cellName).FoundCell?
    ensures CString(ShowDevname(m))
    ensures var r := ParseSource(InitialContext(workstation), Some(ShowDevname(m)), lookup);
            && r.Parsed?
            && r.ctx.cell == Some(lookup(m.cellName).cell)
            && r.ctx.volName[..r.ctx.volNameSz] == m.volName
            && r.ctx.volType == m.volType
            && (m.volType == ROVol ==> r.ctx.force == m.typeForce)
  {
    var s := ShowDevname(m);
    var tail := m.volName + DevnameSuffix(m.volType, m.typeForce);
    DevnameShape(m);
    DevnameIsCString(m);
    SplitAfterCellName(m.cellName, tail);
    SuffixAfterVolumeName(m.volName, DevnameSuffix(m.volType, m.typeForce));
    SuffixSelectsType(InitialContext(workstation), m);
    ParseWithCell(InitialContext(workstation), s, lookup, m.cellName, tail);
  }

  /** A name whose last '.' starts a text the parser cuts is shortened by the cut. */
  lemma CutShortensName(v: string)
    requires CutsSuffix(v)
    ensures VolumeNameLength(v) < |v|
  {
  }

  /**
   * The converse: when nothing is printed after a volume name that ends
   * in ".readonly", ".backup" or ".", parsing the device name cuts that
   * text off, so the volume name does not come back.
   */
  lemma DevnameSuffixLost(m: Mounted, workstation: Option<Cell>, lookup: CellOracle)
    requires !m.dynRoot
    requires CString(m.cellName) && CString(m.volName)
    requires ':' !in m.cellName
    requires DevnameSuffix(m.volType, m.typeForce) == "" && CutsSuffix(m.volName)
    requires lookup(m.cellName).FoundCell?
    ensures CString(ShowDevname(m))
    ensures var r := ParseSource(InitialContext(workstation), Some(ShowDevname(m)), lookup);
            && r.Parsed?
            && r.ctx.volName == m.volName
            && r.ctx.volNameSz < |m.volName|
            && r.ctx.volName[..r.ctx.volNameSz] != m.volName
  {
    var s := ShowDevname(m);
    var v := m.volName;
    var suf := DevnameSuffix(m.volType, m.typeForce);
    assert v + suf == v;
    DevnameShape(m);
    DevnameIsCString(m);
    SplitAfterCellName(m.cellName, v);
    CutShortensName(v);
    ParseWithCell(InitialContext(workstation), s, lookup, m.cellName, v);
  }

  /** Printing then parsing the dynamic root's name gives the no-cell context. */
  lemma DynRootRoundTrip(m: Mounted, ctx: FsContext, lookup: CellOracle)
    requires m.dynRoot
    ensures ParseSource(ctx, Some(ShowDevname(m)), lookup) == Parsed(ctx.(noCell := true))
  {
  }

  /** afs_param_flock: the names the flock= option accepts. */
  const FlockTable: seq<(string, FlockMode)> := [
    ("local", FlockLocal),
    ("openafs", FlockOpenAfs),
    ("strict", FlockStrict),
    ("write", FlockWrite)
  ]

  /** The mode the parameter table maps a name to, first match. */
  function LookupFlock(name: string): (r: Option<FlockMode>)
    ensures r.Some? ==> (name, r.value) in FlockTable
    ensures r.None? ==> forall k :: 0 <= k < |FlockTable| ==> FlockTable[k].0 != name
  {
    LookupIn(FlockTable, name)
  }

  function LookupIn(table: seq<(string, FlockMode)>, name: string): (r: Option<FlockMode>)
    ensures r.Some? ==> (name, r.value) in table
    ensures r.None? ==> forall k :: 0 <= k < |table| ==> table[k].0 != name
  {
    if table == [] then None
    else if table[0].0 == name then Some(table[0].1)
    else
      var r := LookupIn(table[1..], name);
      assert forall k :: 1 <= k < |table| ==> table[k] == table[1..][k - 1];
      r
  }

  /** The name afs_show_options prints for a flock mode; none for the unset mode. */
  function FlockName(mode: FlockMode): Option<string> {
    match mode
    case FlockUnset => None
    case FlockLocal => Some("local")
    case FlockOpenAfs => Some("openafs")
    case FlockStrict => Some("strict")
    case FlockWrite => Some("write")
  }

  /** afs_show_options: ",dyn", ",autocell" and ",flock=<mode>" as they apply. */
  function ShowOptions(dynRoot: bool, autocell: bool, mode: FlockMode): (r: string)
    ensures mode == FlockUnset ==> r == (if dynRoot then ",dyn" else "") + (if autocell then ",autocell" else "")
  {
    (if dynRoot then ",dyn" else "") + (if autocell then ",autocell" else "")
    + (match FlockName(mode) case None => "" case Some(p) => ",flock=" + p)
  }

  /**
   * Every flock mode except unset is printed as ",flock=<name>" at the
   * end of the options, and the parameter table maps that name back to
   * the same mode.
   */
  lemma FlockRoundTrip(dynRoot: bool, autocell: bool, mode: FlockMode)
    requires mode != FlockUnset
    ensures var name := FlockName(mode).value;
            var r := ShowOptions(dynRoot, autocell, mode);
            && |r| >= |name| + 7
            && r[|r| - |name| - 7..] == ",flock=" + name
            && LookupFlock(name) == Some(mode)
  {
  }

  // ---------------------------------------------------------------------
  // afs_get_volume_status_success

  /** The volume status fields statfs uses (unsigned 64-bit in the source). */
  datatype VolumeStatus = VolumeStatus(maxQuota: nat, partMaxBlocks: nat, blocksInUse: nat)

  /** The block counts of struct kstatfs. */
  datatype StatfsBlocks = StatfsBlocks(fBlocks: nat, fBfree: nat, fBavail: nat)

  /**
   * afs_get_volume_status_success: the total is the quota, or the
   * partition size when there is no quota; the free and available counts
   * are what remains of it, set only when something does remain.
   */
  function VolumeStatusSuccess(vs: VolumeStatus, buf: StatfsBlocks): (r: StatfsBlocks)
    ensures r.fBlocks == (if vs.maxQuota == 0 then vs.partMaxBlocks else vs.maxQuota)
    ensures r.fBlocks > vs.blocksInUse ==>
              r.fBfree == r.fBavail && r.fBfree + vs.blocksInUse == r.fBlocks && 0 < r.fBfree <= r.fBlocks
    ensures r.fBlocks <= vs.blocksInUse ==> r.fBfree == buf.fBfree && r.fBavail == buf.fBavail
  {
    var blocks := if vs.maxQuota == 0 then vs.partMaxBlocks else vs.maxQuota;
    if blocks > vs.blocksInUse then
      StatfsBlocks(blocks, blocks - vs.blocksInUse, blocks - vs.blocksInUse)
    else buf.(fBlocks := blocks)
  }
}
