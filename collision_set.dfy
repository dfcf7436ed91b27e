/** A catalog of collisions: loading it from LXCat/BOLSIG text, and the sums
    over it that transport codes use (collisionSet.go). The input file is a
    sequence of lines, read with an explicit cursor; a cursor past the last
    line reads as the empty line, as Go's scanner does after end of input. */
module CollisionSet {
  import opened Results
  import opened Text
  import opened CrossSections

  /** Why a load fails. BadNumber is the error of `strconv.ParseFloat`, which
      the source returns. The other three are places where the source has no
      error path: MissingField and EmptyTable replace an index past the end of
      a slice (a Go panic), and Unterminated replaces the metadata loop that
      never ends once the input is exhausted. */
  datatype ParseError =
    | BadNumber(line: nat, token: string)
    | MissingField(line: nat)
    | Unterminated
    | EmptyTable(line: nat)

  /** The scanner's `Text()` with the cursor on line `i`. */
  function Line(lines: seq<string>, i: nat): string {
    if i < |lines| then lines[i] else ""
  }

  // ---------------------------------------------------------------------
  // Block header and species

  /** The type a line opens a block of: its first whitespace-delimited
      token must be one of the six keywords. Blank lines open nothing. */
  function HeaderType(line: string): Option<CollisionType> {
    var tokens := Fields(line);
    if |tokens| == 0 then None else KeywordType(tokens[0])
  }

  /** A line opens a block of type `t` exactly when its first token is the
      keyword of `t`; a blank line opens none. */
  lemma HeaderKeyword(line: string, t: CollisionType)
    ensures HeaderType(line) == Some(t) <==> Fields(line) != [] && Fields(line)[0] == Keyword(t)
    ensures Blank(line) ==> HeaderType(line).None?
  {
    FieldsAreWords(line);
    if Fields(line) != [] {
      KeywordTypeInverts(Fields(line)[0], t);
    }
  }

  /** The species named on the line after the header: the text before the
      first space character, or the whole line when there is none. */
  function SpeciesOf(line: string): string
    decreases |line|
  {
    if line == [] || line[0] == ' ' then [] else [line[0]] + SpeciesOf(line[1..])
  }

  /** The species is what `strings.Cut(line, " ")` puts before the cut. */
  lemma {:induction false} SpeciesIsCut(line: string)
    ensures SpeciesOf(line) == Cut(line, ' ').0
    decreases |line|
  {
    if line != [] && line[0] != ' ' {
      SpeciesIsCut(line[1..]);
      var k := IndexOf(line, ' ');
      if k < |line| {
        assert line[..k] == [line[0]] + line[1..][..k - 1];
      }
    }
  }

  /** The species is the longest prefix of its line without a space. */
  lemma SpeciesIsPrefix(line: string)
    ensures SpeciesOf(line) <= line
    ensures ' ' !in SpeciesOf(line)
    ensures |SpeciesOf(line)| < |line| ==> line[|SpeciesOf(line)|] == ' '
  {
    SpeciesIsCut(line);
    CutSplits(line, ' ');
  }

  // ---------------------------------------------------------------------
  // Numeric parameters

  /** The numeric fields of a Collision the header's type decides. */
  datatype Parameters = Parameters(
    massRatio: real,
    threshold: real,
    statWeightRatio: real,
    lowerEnergy: real,
    lowerStatWeight: real,
    upperEnergy: real,
    upperStatWeight: real)

  /** Every field 0 except the statistical weight ratio, which is 1. */
  const Defaults := Parameters(0.0, 0.0, 1.0, 0.0, 0.0, 0.0, 0.0)

  predicate Numeric(tokens: seq<string>, k: nat) {
    k < |tokens| && ParseFloat(tokens[k]).Some?
  }

  function NumberAt(tokens: seq<string>, k: nat): real
    requires Numeric(tokens, k)
  {
    ParseFloat(tokens[k]).value
  }

  /** `strconv.ParseFloat(tokens[k], 64)` on line `line`. */
  function NumberField(tokens: seq<string>, k: nat, line: nat): (r: Result<real, ParseError>)
    ensures r.Ok? <==> Numeric(tokens, k)
    ensures r.Ok? ==> r.value == NumberAt(tokens, k)
  {
    if k >= |tokens| then Err(MissingField(line))
    else match ParseFloat(tokens[k])
      case None => Err(BadNumber(line, tokens[k]))
      case Some(x) => Ok(x)
  }

  /** The tokens of the parameter line `i`. The source trims spaces off the
      line first, which FieldsIgnoreTrim shows changes no token. */
  function ParameterTokens(lines: seq<string>, i: nat): seq<string> {
    Fields(Line(lines, i))
  }

  /** ELASTIC and EFFECTIVE: the first token is the mass ratio. */
  function MassParameters(ps: seq<string>, line: nat): (r: Result<Parameters, ParseError>)
    ensures r.Ok? <==> Numeric(ps, 0)
    ensures r.Ok? ==> r.value == Defaults.(massRatio := NumberAt(ps, 0))
  {
    var m :- NumberField(ps, 0, line);
    Ok(Defaults.(massRatio := m))
  }

  /** EXCITATION: the threshold, then the statistical weight ratio if the
      line has a second token (1 otherwise). */
  function ExcitationParameters(ps: seq<string>, line: nat): (r: Result<Parameters, ParseError>)
    ensures r.Ok? <==> Numeric(ps, 0) && (|ps| > 1 ==> Numeric(ps, 1))
    ensures r.Ok? ==> r.value.threshold == NumberAt(ps, 0)
    ensures r.Ok? ==> r.value.statWeightRatio == if |ps| > 1 then NumberAt(ps, 1) else 1.0
    ensures r.Ok? ==> r.value == Defaults.(threshold := r.value.threshold, statWeightRatio := r.value.statWeightRatio)
  {
    var threshold :- NumberField(ps, 0, line);
    if |ps| > 1 then
      var ratio :- NumberField(ps, 1, line);
      Ok(Defaults.(threshold := threshold, statWeightRatio := ratio))
    else
      Ok(Defaults.(threshold := threshold))
  }

  /** IONIZATION: the threshold. */
  function IonizationParameters(ps: seq<string>, line: nat): (r: Result<Parameters, ParseError>)
    ensures r.Ok? <==> Numeric(ps, 0)
    ensures r.Ok? ==> r.value == Defaults.(threshold := NumberAt(ps, 0))
  {
    var threshold :- NumberField(ps, 0, line);
    Ok(Defaults.(threshold := threshold))
  }

  /** ROTATION: energy and statistical weight of the lower level on the
      first line, of the upper level on the next; the threshold stays 0. */
  function RotationParameters(ps: seq<string>, qs: seq<string>, line: nat): (r: Result<Parameters, ParseError>)
    ensures r.Ok? <==> Numeric(ps, 0) && Numeric(ps, 1) && Numeric(qs, 0) && Numeric(qs, 1)
    ensures r.Ok? ==> r.value == Defaults.(lowerEnergy := NumberAt(ps, 0), lowerStatWeight := NumberAt(ps, 1),
                                           upperEnergy := NumberAt(qs, 0), upperStatWeight := NumberAt(qs, 1))
  {
    var lowerEnergy :- NumberField(ps, 0, line);
    var lowerWeight :- NumberField(ps, 1, line);
    var upperEnergy :- NumberField(qs, 0, line + 1);
    var upperWeight :- NumberField(qs, 1, line + 1);
    Ok(Defaults.(lowerEnergy := lowerEnergy, lowerStatWeight := lowerWeight,
                 upperEnergy := upperEnergy, upperStatWeight := upperWeight))
  }

  /** Each field that the type does not set keeps its default. */
  predicate ParametersFit(t: CollisionType, p: Parameters) {
    && (t != Excitation && t != Ionization ==> p.threshold == 0.0)
    && (t != Excitation ==> p.statWeightRatio == 1.0)
    && (t != Elastic && t != Effective ==> p.massRatio == 0.0)
    && (t != Rotation ==>
          p.lowerEnergy == 0.0 && p.lowerStatWeight == 0.0 && p.upperEnergy == 0.0 && p.upperStatWeight == 0.0)
  }

  /** The type-dependent parameters on line `i` (and, for a rotation, on
      line `i + 1`), with the line the metadata scan starts on: the last
      parameter line, which the scan reads as metadata too. */
  function ReadParameters(lines: seq<string>, i: nat, t: CollisionType): (r: Result<(Parameters, nat), ParseError>)
    ensures r.Ok? ==> r.value.1 == if t == Rotation then i + 1 else i
    ensures r.Ok? ==> ParametersFit(t, r.value.0)
    ensures t == Attachment ==> r == Ok((Defaults, i))
  {
    var ps := ParameterTokens(lines, i);
    match t
    case Elastic | Effective =>
      var p :- MassParameters(ps, i);
      Ok((p, i))
    case Excitation =>
      var p :- ExcitationParameters(ps, i);
      Ok((p, i))
    case Ionization =>
      var p :- IonizationParameters(ps, i);
      Ok((p, i))
    case Rotation =>
      var p :- RotationParameters(ps, Fields(Line(lines, i + 1)), i);
      Ok((p, i + 1))
    case Attachment =>
      Ok((Defaults, i))
  }

  // ---------------------------------------------------------------------
  // Metadata

  /** The key a metadata line defines: the text before its first colon,
      trimmed of spaces; a line without a colon defines none. */
  function EntryKey(line: string): Option<string> {
    var (key, _, found) := Cut(line, ':');
    if found then Some(Trim(key, ' ')) else None
  }

  /** The text after the first colon, trimmed of spaces. */
  function EntryValue(line: string): string {
    Trim(Cut(line, ':').1, ' ')
  }

  function AddEntry(info: map<string, string>, line: string): map<string, string> {
    match EntryKey(line)
    case Some(key) => info[key := EntryValue(line)]
    case None => info
  }

  /** The metadata section from line `j` up to the separator line, added to
      `info`, with the index of the separator. */
  function ReadInfo(lines: seq<string>, j: nat, info: map<string, string>): (r: Result<(map<string, string>, nat), ParseError>)
    ensures r.Ok? ==> j <= r.value.1 < |lines| && IsSeparator(lines[r.value.1])
    ensures r.Err? ==> r.error == Unterminated
    decreases |lines| - j
  {
    if j >= |lines| then Err(Unterminated)
    else if IsSeparator(lines[j]) then Ok((info, j))
    else ReadInfo(lines, j + 1, AddEntry(info, lines[j]))
  }

  /** The metadata section ends at the first separator line; without one
      the section never ends. */
  lemma {:induction false} InfoEndsAtFirstSeparator(lines: seq<string>, j: nat, info: map<string, string>)
    ensures ReadInfo(lines, j, info).Ok? ==>
      forall l :: j <= l < ReadInfo(lines, j, info).value.1 ==> !IsSeparator(lines[l])
    ensures ReadInfo(lines, j, info).Err? <==>
      forall l :: j <= l < |lines| ==> !IsSeparator(lines[l])
    decreases |lines| - j
  {
    if j < |lines| && !IsSeparator(lines[j]) {
      InfoEndsAtFirstSeparator(lines, j + 1, AddEntry(info, lines[j]));
    }
  }

  /** Every key the metadata lines define ends up in Info, and no other;
      the value is the one of the last line that defines the key. */
  lemma {:induction false} InfoEntries(lines: seq<string>, j: nat, info: map<string, string>, key: string)
    requires ReadInfo(lines, j, info).Ok?
    ensures var (m, end) := ReadInfo(lines, j, info).value;
      key in m <==> key in info || exists l :: j <= l < end && EntryKey(lines[l]) == Some(key)
    ensures var (m, end) := ReadInfo(lines, j, info).value;
      forall l :: j <= l < end && EntryKey(lines[l]) == Some(key)
        && (forall l' :: l < l' < end ==> EntryKey(lines[l']) != Some(key))
        ==> m[key] == EntryValue(lines[l])
    ensures var (m, end) := ReadInfo(lines, j, info).value;
      (key in info && forall l :: j <= l < end ==> EntryKey(lines[l]) != Some(key))
        ==> m[key] == info[key]
    decreases |lines| - j
  {
    if !IsSeparator(lines[j]) {
      var next := AddEntry(info, lines[j]);
      assert ReadInfo(lines, j, info) == ReadInfo(lines, j + 1, next);
      InfoEntries(lines, j + 1, next, key);
      var (m, end) := ReadInfo(lines, j, info).value;
      if EntryKey(lines[j]) == Some(key) {
        assert key in next && next[key] == EntryValue(lines[j]);
        assert key in m;
      } else {
        assert key in next <==> key in info;
        assert key in info ==> next[key] == info[key];
        assert (exists l :: j <= l < end && EntryKey(lines[l]) == Some(key))
           <==> (exists l :: j + 1 <= l < end && EntryKey(lines[l]) == Some(key));
      }
      forall l | j <= l < end && EntryKey(lines[l]) == Some(key)
          && (forall l' :: l < l' < end ==> EntryKey(lines[l']) != Some(key))
        ensures m[key] == EntryValue(lines[l])
      {
        if l == j {
          assert next[key] == EntryValue(lines[j]);
        }
      }
    }
  }

  // ---------------------------------------------------------------------
  // Data table

  /** One `energy value` row. */
  function ReadPoint(line: string, j: nat): (r: Result<CrossSectionPoint, ParseError>)
    ensures var ts := Fields(line);
      && (r.Ok? <==> Numeric(ts, 0) && Numeric(ts, 1))
      && (r.Ok? ==> r.value == Point(NumberAt(ts, 0), NumberAt(ts, 1)))
  {
    var ts := Fields(line);
    var energy :- NumberField(ts, 0, j);
    var value :- NumberField(ts, 1, j);
    Ok(Point(energy, value))
  }

  /** The rows from line `j` up to the separator line, appended to `acc`,
      with the index of the separator. A cursor past the end reads the empty
      line, whose first field is missing. */
  function ReadTable(lines: seq<string>, j: nat, acc: seq<CrossSectionPoint>)
    : (r: Result<(seq<CrossSectionPoint>, nat), ParseError>)
    ensures r.Ok? ==> j <= r.value.1 < |lines| && IsSeparator(lines[r.value.1])
    decreases |lines| - j
  {
    if j >= |lines| then Err(MissingField(j))
    else if IsSeparator(lines[j]) then Ok((acc, j))
    else
      var p :- ReadPoint(lines[j], j);
      ReadTable(lines, j + 1, acc + [p])
  }

  /** The table holds one point per line before the separator, in order:
      the point that line reads as. */
  lemma {:induction false} TableRows(lines: seq<string>, j: nat, acc: seq<CrossSectionPoint>)
    requires ReadTable(lines, j, acc).Ok?
    ensures var (rows, end) := ReadTable(lines, j, acc).value;
      && |rows| == |acc| + (end - j)
      && rows[..|acc|] == acc
      && (forall l :: j <= l < end ==>
            !IsSeparator(lines[l]) && ReadPoint(lines[l], l) == Ok(rows[|acc| + l - j]))
    decreases |lines| - j
  {
    if !IsSeparator(lines[j]) {
      var p := ReadPoint(lines[j], j).value;
      var next := ReadTable(lines, j + 1, acc + [p]);
      assert ReadTable(lines, j, acc) == next;
      TableRows(lines, j + 1, acc + [p]);
      var rows, end := next.value.0, next.value.1;
      assert rows[..|acc| + 1] == acc + [p];
      assert rows[..|acc|] == (acc + [p])[..|acc|];
      forall l | j <= l < end
        ensures !IsSeparator(lines[l]) && ReadPoint(lines[l], l) == Ok(rows[|acc| + l - j])
      {
        if l == j {
          assert rows[|acc|] == (acc + [p])[|acc|] == p;
          assert ReadPoint(lines[l], l) == Ok(p);
        } else {
          assert |acc + [p]| + l - (j + 1) == |acc| + l - j;
          assert ReadPoint(lines[l], l) == Ok(rows[|acc + [p]| + l - (j + 1)]);
        }
      }
    }
  }

  // ---------------------------------------------------------------------
  // Threshold rule

  /** The types whose cross section is zero at and below a threshold. */
  predicate HasThreshold(t: CollisionType) {
    t == Excitation || t == Ionization || t == Rotation
  }

  predicate Keeps(t: CollisionType, threshold: real, p: CrossSectionPoint) {
    !HasThreshold(t) || threshold < p.energy
  }

  /** The rows the loader keeps, in file order. */
  function Retained(t: CollisionType, threshold: real, raw: seq<CrossSectionPoint>): (r: seq<CrossSectionPoint>)
    ensures |r| <= |raw|
  {
    if raw == [] then []
    else
      var kept := Retained(t, threshold, raw[..|raw| - 1]);
      if Keeps(t, threshold, raw[|raw| - 1]) then kept + [raw[|raw| - 1]] else kept
  }

  /** A row read after `raw` is kept exactly when the threshold rule keeps it. */
  lemma RetainedSnoc(t: CollisionType, threshold: real, raw: seq<CrossSectionPoint>, p: CrossSectionPoint)
    ensures Retained(t, threshold, raw + [p])
         == if Keeps(t, threshold, p) then Retained(t, threshold, raw) + [p] else Retained(t, threshold, raw)
  {
    assert (raw + [p])[..|raw|] == raw;
  }

  /** The loader keeps every row of a type without a threshold, and exactly
      the rows strictly above the threshold otherwise. */
  lemma {:induction false} RetainedRows(t: CollisionType, threshold: real, raw: seq<CrossSectionPoint>)
    ensures forall p :: p in Retained(t, threshold, raw) <==> p in raw && Keeps(t, threshold, p)
    ensures !HasThreshold(t) ==> Retained(t, threshold, raw) == raw
    decreases |raw|
  {
    if raw != [] {
      var init, p := raw[..|raw| - 1], raw[|raw| - 1];
      assert raw == init + [p];
      RetainedRows(t, threshold, init);
    }
  }

  /** Filtering keeps a table in ascending order of energy. */
  lemma {:induction false} RetainedSorted(t: CollisionType, threshold: real, raw: seq<CrossSectionPoint>)
    requires Sorted(raw)
    ensures Sorted(Retained(t, threshold, raw))
    decreases |raw|
  {
    if raw != [] {
      var init, p := raw[..|raw| - 1], raw[|raw| - 1];
      RetainedSorted(t, threshold, init);
      RetainedRows(t, threshold, init);
      var kept := Retained(t, threshold, init);
      if Keeps(t, threshold, p) {
        var r := kept + [p];
        forall a, b | 0 <= a < b < |r|
          ensures r[a].energy <= r[b].energy
        {
          if b == |kept| {
            assert r[a] == kept[a] && kept[a] in kept;
            var x :| 0 <= x < |init| && init[x] == kept[a];
            assert raw[x] == init[x];
          } else {
            assert r[a] == kept[a] && r[b] == kept[b];
          }
        }
      }
    }
  }

  /** A table that honours the threshold: every point after the first is
      above the threshold, and the first is either the synthetic point
      (threshold, 0) or a point above the threshold whose value is not
      positive. */
  predicate ZeroFloored(threshold: real, data: seq<CrossSectionPoint>) {
    && |data| >= 1
    && data[0].value <= 0.0
    && threshold <= data[0].energy
    && (data[0].energy == threshold ==> data[0].value == 0.0)
    && forall k :: 1 <= k < |data| ==> threshold < data[k].energy
  }

  /** The threshold rule: filter, then put (threshold, 0) in front when the
      first kept value is positive. An empty filtered table is an error. */
  function Normalize(t: CollisionType, threshold: real, raw: seq<CrossSectionPoint>, line: nat)
    : (r: Result<seq<CrossSectionPoint>, ParseError>)
    ensures !HasThreshold(t) ==> r == Ok(raw)
  {
    RetainedRows(t, threshold, raw);
    var kept := Retained(t, threshold, raw);
    if !HasThreshold(t) then Ok(kept)
    else if |kept| == 0 then Err(EmptyTable(line))
    else if kept[0].value > 0.0 then Ok([Point(threshold, 0.0)] + kept)
    else Ok(kept)
  }

  /** For a type with a threshold, the table is non-empty exactly when some
      row lies above the threshold; it then starts at zero or below, every
      later point lies above the threshold, the kept rows follow in file
      order, and (threshold, 0) is added only when the first kept value is
      positive. With non-negative values the table starts at exactly 0. */
  lemma NormalizeFloorsAtZero(t: CollisionType, threshold: real, raw: seq<CrossSectionPoint>, line: nat)
    requires HasThreshold(t)
    ensures var r := Normalize(t, threshold, raw, line);
      r.Ok? <==> exists p :: p in raw && threshold < p.energy
    ensures var r := Normalize(t, threshold, raw, line);
      r.Ok? ==> ZeroFloored(threshold, r.value)
    ensures var r, kept := Normalize(t, threshold, raw, line), Retained(t, threshold, raw);
      r.Ok? ==> && r.value[|r.value| - |kept|..] == kept
                && |r.value| == |kept| + (if kept[0].value > 0.0 then 1 else 0)
    ensures var r, kept := Normalize(t, threshold, raw, line), Retained(t, threshold, raw);
      r.Ok? ==> r.value == if kept[0].value > 0.0 then [Point(threshold, 0.0)] + kept else kept
    ensures var r := Normalize(t, threshold, raw, line);
      r.Ok? && (forall p :: p in raw ==> p.value >= 0.0) ==> r.value[0].value == 0.0
  {
    RetainedRows(t, threshold, raw);
    var kept := Retained(t, threshold, raw);
    if |kept| == 0 {
      assert forall p :: p in raw ==> !(threshold < p.energy);
    } else {
      assert kept[0] in kept;
      assert forall k :: 1 <= k < |kept| ==> kept[k] in kept;
    }
  }

  /** A table in ascending order of energy stays so. */
  lemma NormalizeSorted(t: CollisionType, threshold: real, raw: seq<CrossSectionPoint>, line: nat)
    requires Sorted(raw)
    requires Normalize(t, threshold, raw, line).Ok?
    ensures Sorted(Normalize(t, threshold, raw, line).value)
  {
    RetainedSorted(t, threshold, raw);
    RetainedRows(t, threshold, raw);
    var kept := Retained(t, threshold, raw);
    if HasThreshold(t) {
      assert forall k :: 0 <= k < |kept| ==> kept[k] in kept;
    }
  }

  // ---------------------------------------------------------------------
  // Blocks and the whole file

  /** What the loader guarantees of every Collision it builds. */
  predicate WellFormed(c: Collision) {
    && (HasThreshold(c.kind) ==> ZeroFloored(c.threshold, c.data))
    && ParametersFit(c.kind, Parameters(c.massRatio, c.threshold, c.statWeightRatio,
                                        c.lowerEnergy, c.lowerStatWeight, c.upperEnergy, c.upperStatWeight))
  }

  /** What follows the parameter lines of a block: the metadata from line
      `j` up to its separator, the data table after that up to the next
      separator, and the threshold rule applied to the table. Yields the
      metadata, the table and the index of the closing separator. */
  function ReadSections(lines: seq<string>, j: nat, t: CollisionType, threshold: real)
    : (r: Result<(map<string, string>, seq<CrossSectionPoint>, nat), ParseError>)
    ensures r.Ok? ==> j < r.value.2 < |lines| && IsSeparator(lines[r.value.2])
  {
    var metadata :- ReadInfo(lines, j, map[]);
    var table :- ReadTable(lines, metadata.1 + 1, []);
    var data :- Normalize(t, threshold, table.0, table.1);
    Ok((metadata.0, data, table.1))
  }

  /** The block whose header is line `i`, with the index of the separator
      that closes its data table. */
  function ReadBlock(lines: seq<string>, i: nat, t: CollisionType): (r: Result<(Collision, nat), ParseError>)
    ensures r.Ok? ==> i + 2 < r.value.1 < |lines| && IsSeparator(lines[r.value.1])
    ensures r.Ok? ==> r.value.0.kind == t && r.value.0.species == SpeciesOf(Line(lines, i + 1))
  {
    var species := SpeciesOf(Line(lines, i + 1));
    var params :- ReadParameters(lines, i + 2, t);
    var p := params.0;
    var sections :- ReadSections(lines, params.1, t, p.threshold);
    Ok((Collision(t, p.massRatio, species, sections.1, p.threshold, p.statWeightRatio,
                  p.lowerEnergy, p.lowerStatWeight, p.upperEnergy, p.upperStatWeight, sections.0), sections.2))
  }

  /** The table of a block of a type with a threshold honours it. */
  lemma SectionsFloored(lines: seq<string>, j: nat, t: CollisionType, threshold: real)
    requires HasThreshold(t) && ReadSections(lines, j, t, threshold).Ok?
    ensures ZeroFloored(threshold, ReadSections(lines, j, t, threshold).value.1)
  {
    var metadata := ReadInfo(lines, j, map[]).value;
    var table := ReadTable(lines, metadata.1 + 1, []).value;
    NormalizeFloorsAtZero(t, threshold, table.0, table.1);
  }

  /** Every block read is well formed. */
  lemma BlockWellFormed(lines: seq<string>, i: nat, t: CollisionType)
    requires ReadBlock(lines, i, t).Ok?
    ensures WellFormed(ReadBlock(lines, i, t).value.0)
  {
    var params := ReadParameters(lines, i + 2, t).value;
    if HasThreshold(t) {
      SectionsFloored(lines, params.1, t, params.0.threshold);
    }
  }

  /** How LoadCrossSections reads one block: from the header line `i` of a
      block of type `t`, what the block holds and the line of the separator
      that closes it. The outer loop looks at a line only through the type
      of block it opens and does not look inside a block, so a load is
      stated over the header types of the lines and any block reader. */
  type BlockReader<C> = (nat, CollisionType) -> Result<(C, nat), ParseError>

  /** What the outer loop relies on from its block reader: a block closes on
      a later line of the file than its header. */
  ghost predicate ReadsBlocks<C>(size: nat, read: BlockReader<C>) {
    forall i: nat, t: CollisionType :: read(i, t).Ok? ==> i < read(i, t).value.1 < size
  }

  /** The type of block each line opens, if any. */
  function Headers(lines: seq<string>): (heads: seq<Option<CollisionType>>)
    ensures |heads| == |lines|
  {
    seq(|lines|, k requires 0 <= k < |lines| => HeaderType(lines[k]))
  }

  /** The block reader of LoadCrossSections: ReadBlock on `lines`. */
  function Reader(lines: seq<string>): BlockReader<Collision> {
    (i: nat, t: CollisionType) => ReadBlock(lines, i, t)
  }

  /** ReadBlock keeps to what the outer loop relies on. */
  lemma ReaderReadsBlocks(lines: seq<string>)
    ensures ReadsBlocks(|lines|, Reader(lines))
  {
    var read := Reader(lines);
    forall i: nat, t: CollisionType | read(i, t).Ok?
      ensures i < read(i, t).value.1 < |lines|
    {
      assert read(i, t) == ReadBlock(lines, i, t);
    }
  }

  /** The blocks from line `i` on, in file order, each read by `read`; the
      first block that fails to read is the outcome. */
  function LoadFrom<C>(heads: seq<Option<CollisionType>>, read: BlockReader<C>, i: nat): Result<seq<C>, ParseError>
    requires ReadsBlocks(|heads|, read)
    decreases |heads| - i
  {
    if i >= |heads| then Ok([])
    else match heads[i]
      case None => LoadFrom(heads, read, i + 1)
      case Some(t) =>
        match read(i, t)
        case Err(e) => Err(e)
        case Ok(block) => Prepend(block.0, LoadFrom(heads, read, block.1 + 1))
  }

  /** What loading the file whose lines are `lines` yields. */
  function Load(lines: seq<string>): Result<seq<Collision>, ParseError> {
    ReaderReadsBlocks(lines);
    LoadFrom(Headers(lines), Reader(lines), 0)
  }

  /** `c` in front of what `r` loads, or the error that stopped `r`. */
  function Prepend<T, E>(c: T, r: Result<seq<T>, E>): Result<seq<T>, E> {
    match r
    case Err(e) => Err(e)
    case Ok(rest) => Ok([c] + rest)
  }

  /** The blocks `acc` already read, followed by the outcome `r` of loading
      the rest of the file. */
  function After<T, E>(acc: seq<T>, r: Result<seq<T>, E>): Result<seq<T>, E> {
    match r
    case Err(e) => Err(e)
    case Ok(rest) => Ok(acc + rest)
  }

  lemma AfterPrepend<T, E>(acc: seq<T>, c: T, r: Result<seq<T>, E>)
    ensures After(acc, Prepend(c, r)) == After(acc + [c], r)
  {
    if r.Ok? {
      assert acc + [c] + r.value == acc + ([c] + r.value);
    }
  }

  lemma AppendEmpty<T>(a: seq<T>)
    ensures a + [] == a && [] + a == a
  {
  }

  /** At a header line, loading reads the block, then goes on after it. */
  lemma LoadAtHeader<C>(heads: seq<Option<CollisionType>>, read: BlockReader<C>, i: nat, t: CollisionType,
                        acc: seq<C>, block: Result<(C, nat), ParseError>)
    requires ReadsBlocks(|heads|, read)
    requires i < |heads| && heads[i] == Some(t) && block == read(i, t)
    ensures block.Err? ==> After(acc, LoadFrom(heads, read, i)) == Err(block.error)
    ensures block.Ok? ==>
      After(acc, LoadFrom(heads, read, i)) == After(acc + [block.value.0], LoadFrom(heads, read, block.value.1 + 1))
  {
    if block.Ok? {
      AfterPrepend(acc, block.value.0, LoadFrom(heads, read, block.value.1 + 1));
    }
  }

  /** No line in [from, to) opens a block. */
  predicate NoHeaderIn(heads: seq<Option<CollisionType>>, from: nat, to: nat) {
    forall h :: from <= h < to && h < |heads| ==> heads[h].None?
  }

  /** Where the blocks lie from line `i` on: block k runs from header line
      hs[k], which names type ts[k], to separator line ends[k]; no line
      before the first block, between two blocks or after the last opens a
      block. */
  predicate Placed(heads: seq<Option<CollisionType>>, i: nat, ts: seq<CollisionType>, hs: seq<nat>, ends: seq<nat>)
    decreases |hs|
  {
    && |hs| == |ends| == |ts|
    && if hs == [] then NoHeaderIn(heads, i, |heads|)
       else
         && i <= hs[0] < ends[0] < |heads|
         && NoHeaderIn(heads, i, hs[0])
         && heads[hs[0]] == Some(ts[0])
         && Placed(heads, ends[0] + 1, ts[1..], hs[1..], ends[1..])
  }

  /** Block k, read as type ts[k] from header line hs[k], is cs[k] and
      closes at ends[k]. */
  ghost predicate BlocksRead<C>(read: BlockReader<C>, ts: seq<CollisionType>, cs: seq<C>, hs: seq<nat>, ends: seq<nat>) {
    && |hs| == |ends| == |ts| == |cs|
    && forall k :: 0 <= k < |hs| ==> read(hs[k], ts[k]) == Ok((cs[k], ends[k]))
  }

  /** The block structure behind `cs`: where each block lies and what it
      reads as. */
  ghost predicate Layout<C>(heads: seq<Option<CollisionType>>, read: BlockReader<C>, i: nat, ts: seq<CollisionType>, cs: seq<C>, hs: seq<nat>, ends: seq<nat>) {
    Placed(heads, i, ts, hs, ends) && BlocksRead(read, ts, cs, hs, ends)
  }

  /** A line that opens no block extends the placement of what follows it. */
  lemma PlacedSkip(heads: seq<Option<CollisionType>>, i: nat, ts: seq<CollisionType>, hs: seq<nat>, ends: seq<nat>)
    requires i < |heads| && heads[i].None?
    requires Placed(heads, i + 1, ts, hs, ends)
    ensures Placed(heads, i, ts, hs, ends)
  {
  }

  /** The layout of a successful load from line `i`: one block per header,
      read in file order. */
  lemma {:induction false} BlocksFrom<C>(heads: seq<Option<CollisionType>>, read: BlockReader<C>, i: nat)
    returns (ts: seq<CollisionType>, hs: seq<nat>, ends: seq<nat>)
    requires ReadsBlocks(|heads|, read) && LoadFrom(heads, read, i).Ok?
    ensures Layout(heads, read, i, ts, LoadFrom(heads, read, i).value, hs, ends)
    decreases |heads| - i
  {
    if i >= |heads| {
      ts, hs, ends := [], [], [];
    } else {
      match heads[i]
      case None =>
        ts, hs, ends := BlocksFrom(heads, read, i + 1);
        PlacedSkip(heads, i, ts, hs, ends);
      case Some(t) =>
        var (c, end) := read(i, t).value;
        var ts', hs', ends' := BlocksFrom(heads, read, end + 1);
        PlacedCons(heads, i, t, end, ts', hs', ends');
        BlocksReadCons(read, i, t, c, end, ts', LoadFrom(heads, read, end + 1).value, hs', ends');
        ts, hs, ends := [t] + ts', [i] + hs', [end] + ends';
    }
  }

  /** A block at line `i` closing at `end`, then the blocks placed after it. */
  lemma PlacedCons(heads: seq<Option<CollisionType>>, i: nat, t: CollisionType, end: nat, ts: seq<CollisionType>, hs: seq<nat>, ends: seq<nat>)
    requires i < end < |heads| && heads[i] == Some(t)
    requires Placed(heads, end + 1, ts, hs, ends)
    ensures Placed(heads, i, [t] + ts, [i] + hs, [end] + ends)
  {
    assert ([t] + ts)[1..] == ts && ([i] + hs)[1..] == hs && ([end] + ends)[1..] == ends;
  }

  /** The block read at line `i`, then the blocks read after it. */
  lemma BlocksReadCons<C>(read: BlockReader<C>, i: nat, t: CollisionType, c: C, end: nat,
                          ts: seq<CollisionType>, cs: seq<C>, hs: seq<nat>, ends: seq<nat>)
    requires read(i, t) == Ok((c, end))
    requires BlocksRead(read, ts, cs, hs, ends)
    ensures BlocksRead(read, [t] + ts, [c] + cs, [i] + hs, [end] + ends)
  {
    var ts', cs', hs', ends' := [t] + ts, [c] + cs, [i] + hs, [end] + ends;
    forall k | 0 <= k < |hs'|
      ensures read(hs'[k], ts'[k]) == Ok((cs'[k], ends'[k]))
    {
      if k > 0 {
        assert ts'[k] == ts[k - 1] && hs'[k] == hs[k - 1] && cs'[k] == cs[k - 1] && ends'[k] == ends[k - 1];
      }
    }
  }

  /** Each placed block lies between `i` and the end of the file and is
      opened by a header of its type. */
  lemma {:induction false} PlacedBlocks(heads: seq<Option<CollisionType>>, i: nat, ts: seq<CollisionType>, hs: seq<nat>, ends: seq<nat>)
    requires Placed(heads, i, ts, hs, ends)
    ensures forall k :: 0 <= k < |hs| ==> i <= hs[k] < ends[k] < |heads|
    ensures forall k :: 0 <= k < |hs| ==> heads[hs[k]] == Some(ts[k])
    decreases |hs|
  {
    if hs != [] {
      PlacedBlocks(heads, ends[0] + 1, ts[1..], hs[1..], ends[1..]);
      forall k | 0 < k < |hs|
        ensures hs[k] == hs[1..][k - 1] && ends[k] == ends[1..][k - 1] && ts[k] == ts[1..][k - 1]
      {
      }
    }
  }

  /** Placed blocks follow one another in file order. */
  lemma {:induction false} PlacedOrdered(heads: seq<Option<CollisionType>>, i: nat, ts: seq<CollisionType>, hs: seq<nat>, ends: seq<nat>)
    requires Placed(heads, i, ts, hs, ends)
    ensures forall k, k' :: 0 <= k < k' < |hs| ==> ends[k] < hs[k']
    decreases |hs|
  {
    if hs != [] {
      var i' := ends[0] + 1;
      PlacedOrdered(heads, i', ts[1..], hs[1..], ends[1..]);
      PlacedBlocks(heads, i', ts[1..], hs[1..], ends[1..]);
      forall k, k' | 0 <= k < k' < |hs|
        ensures ends[k] < hs[k']
      {
        assert hs[k'] == hs[1..][k' - 1];
        if k > 0 {
          assert ends[k] == ends[1..][k - 1];
        }
      }
    }
  }

  /** A successful load yields one well-formed Collision per block, in file
      order, of the type its header names, and skips every line outside a
      block. */
  lemma LoadedBlocks(lines: seq<string>) returns (ts: seq<CollisionType>, hs: seq<nat>, ends: seq<nat>)
    requires Load(lines).Ok?
    ensures Layout(Headers(lines), Reader(lines), 0, ts, Load(lines).value, hs, ends)
    ensures forall k :: 0 <= k < |Load(lines).value| ==> Load(lines).value[k].kind == ts[k]
    ensures forall k :: 0 <= k < |Load(lines).value| ==> WellFormed(Load(lines).value[k])
  {
    var read := Reader(lines);
    ReaderReadsBlocks(lines);
    var cs := Load(lines).value;
    ts, hs, ends := BlocksFrom(Headers(lines), read, 0);
    forall k | 0 <= k < |cs|
      ensures cs[k].kind == ts[k] && WellFormed(cs[k])
    {
      assert read(hs[k], ts[k]) == ReadBlock(lines, hs[k], ts[k]);
      BlockWellFormed(lines, hs[k], ts[k]);
    }
  }

  /** Reader(lines) is ReadBlock on `lines`, stated for each block read. */
  lemma ReaderIsReadBlock(lines: seq<string>)
    ensures forall i: nat, t: CollisionType {:trigger ReadBlock(lines, i, t)} ::
      Reader(lines)(i, t) == ReadBlock(lines, i, t)
  {
  }

  /** LoadCrossSections: the block parser. */
  method LoadCrossSections(lines: seq<string>) returns (r: Result<seq<Collision>, ParseError>)
    ensures r == Load(lines)
  {
    ReaderReadsBlocks(lines);
    ReaderIsReadBlock(lines);
    r := ScanFile(lines, Headers(lines), Reader(lines));
  }

  /** The loop of LoadCrossSections. The cursor `i` walks the lines; a line
      whose first token is a keyword opens a block, which ScanBlock reads
      up to the separator that closes its data table. The header types of
      the lines and the block reader are ghost inputs that the proof
      follows. */
  method ScanFile(lines: seq<string>, ghost heads: seq<Option<CollisionType>>, ghost read: BlockReader<Collision>)
    returns (r: Result<seq<Collision>, ParseError>)
    requires |heads| == |lines| && forall k :: 0 <= k < |lines| ==> heads[k] == HeaderType(lines[k])
    requires ReadsBlocks(|heads|, read)
    requires forall i: nat, t: CollisionType {:trigger ReadBlock(lines, i, t)} :: read(i, t) == ReadBlock(lines, i, t)
    ensures r == LoadFrom(heads, read, 0)
  {
    var collisions: seq<Collision> := [];
    var i := 0;
    if LoadFrom(heads, read, 0).Ok? {
      AppendEmpty(LoadFrom(heads, read, 0).value);
    }
    while i < |lines|
      invariant After(collisions, LoadFrom(heads, read, i)) == LoadFrom(heads, read, 0)
      decreases |lines| - i
    {
      var header := HeaderType(lines[i]);
      if header.None? {
        i := i + 1;
      } else {
        var t := header.value;
        var block := ScanBlock(lines, i, t);
        LoadAtHeader(heads, read, i, t, collisions, block);
        if block.Err? {
          return Err(block.error);
        }
        collisions := collisions + [block.value.0];
        i := block.value.1 + 1;
      }
    }
    r := Ok(collisions);
    AppendEmpty(collisions);
  }

  /** One block: the species line after the header, the parameter line(s),
      the metadata up to the first separator and the data table up to the
      second, then the threshold rule. */
  method ScanBlock(lines: seq<string>, i: nat, t: CollisionType) returns (r: Result<(Collision, nat), ParseError>)
    ensures r == ReadBlock(lines, i, t)
  {
    var species := SpeciesOf(Line(lines, i + 1));
    var params := ReadParameters(lines, i + 2, t);
    if params.Err? {
      return Err(params.error);
    }
    var p, j := params.value.0, params.value.1;
    var sections := ScanSections(lines, j, t, p.threshold);
    if sections.Err? {
      return Err(sections.error);
    }
    var (info, data, end) := sections.value;
    r := Ok((Collision(t, p.massRatio, species, data, p.threshold, p.statWeightRatio,
                       p.lowerEnergy, p.lowerStatWeight, p.upperEnergy, p.upperStatWeight, info), end));
  }

  /** The metadata and table loops of a block, then the threshold rule: a
      type with a threshold whose first kept value is positive gets
      (threshold, 0) in front; an empty kept table is an error. */
  method ScanSections(lines: seq<string>, j: nat, t: CollisionType, threshold: real)
    returns (r: Result<(map<string, string>, seq<CrossSectionPoint>, nat), ParseError>)
    ensures r == ReadSections(lines, j, t, threshold)
  {
    var info := ScanInfo(lines, j);
    if info.Err? {
      return Err(info.error);
    }
    var table := ScanTable(lines, info.value.1 + 1, t, threshold);
    if table.Err? {
      return Err(table.error);
    }
    var data, end := table.value.0, table.value.1;
    if HasThreshold(t) {
      if |data| == 0 {
        return Err(EmptyTable(end));
      }
      if data[0].value > 0.0 {
        data := [Point(threshold, 0.0)] + data;
      }
    }
    r := Ok((info.value.0, data, end));
  }

  /** The metadata loop: `key: value` lines from line `j` up to the
      separator; the scanner spins on forever at the end of the input,
      which the model reports as Unterminated. */
  method ScanInfo(lines: seq<string>, start: nat) returns (r: Result<(map<string, string>, nat), ParseError>)
    ensures r == ReadInfo(lines, start, map[])
  {
    var info: map<string, string> := map[];
    var j := start;
    while !IsSeparator(Line(lines, j))
      invariant ReadInfo(lines, j, info) == ReadInfo(lines, start, map[])
      decreases |lines| - j
    {
      if j >= |lines| {
        return Err(Unterminated);
      }
      var (key, val, found) := Cut(lines[j], ':');
      if found {
        info := info[Trim(key, ' ') := Trim(val, ' ')];
      }
      j := j + 1;
    }
    r := Ok((info, j));
  }

  /** The data loop: `energy value` rows from line `start` up to the
      separator, keeping those the threshold rule keeps. Past the end of
      the input the scanner yields empty lines, whose first field is
      missing. */
  method ScanTable(lines: seq<string>, start: nat, t: CollisionType, threshold: real)
    returns (r: Result<(seq<CrossSectionPoint>, nat), ParseError>)
    ensures var table := ReadTable(lines, start, []);
      && (r.Err? <==> table.Err?)
      && (r.Err? ==> r.error == table.error)
      && (r.Ok? ==> r.value == (Retained(t, threshold, table.value.0), table.value.1))
  {
    var data: seq<CrossSectionPoint> := [];
    ghost var raw: seq<CrossSectionPoint> := [];
    var j := start;
    while !IsSeparator(Line(lines, j))
      invariant ReadTable(lines, j, raw) == ReadTable(lines, start, [])
      invariant data == Retained(t, threshold, raw)
      decreases |lines| - j
    {
      if j >= |lines| {
        return Err(MissingField(j));
      }
      var point := ReadPoint(lines[j], j);
      if point.Err? {
        return Err(point.error);
      }
      var p := point.value;
      RetainedSnoc(t, threshold, raw, p);
      if !HasThreshold(t) || threshold < p.energy {
        data := data + [p];
      }
      raw := raw + [p];
      j := j + 1;
    }
    r := Ok((data, j));
  }

  // ---------------------------------------------------------------------
  // Sums over a catalog

  /** Every collision has a point to look up, as CrossSectionAt needs. */
  predicate Tabulated(cs: seq<Collision>) {
    forall k :: 0 <= k < |cs| ==> |cs[k].data| >= 1
  }

  /** Sum of the cross sections of all collisions at `e`, left to right. */
  function TotalAt(cs: seq<Collision>, e: real): real
    requires Tabulated(cs)
  {
    if cs == [] then 0.0
    else TotalAt(cs[..|cs| - 1], e) + At(cs[|cs| - 1].data, e)
  }

  /** Every collision of type `t` has a point to look up: the only ones
      TotalCrossSectionOfKindAt looks up. */
  predicate TabulatedKind(cs: seq<Collision>, t: CollisionType) {
    forall k :: 0 <= k < |cs| && cs[k].kind == t ==> |cs[k].data| >= 1
  }

  /** The same sum over the collisions of type `t` only. */
  function KindTotalAt(cs: seq<Collision>, t: CollisionType, e: real): real
    requires TabulatedKind(cs, t)
  {
    if cs == [] then 0.0
    else KindTotalAt(cs[..|cs| - 1], t, e) + (if cs[|cs| - 1].kind == t then At(cs[|cs| - 1].data, e) else 0.0)
  }

  /** Largest value of a table, or 0 if every value is below 0. */
  function Peak(data: seq<CrossSectionPoint>): real {
    if data == [] then 0.0
    else
      var m := Peak(data[..|data| - 1]);
      if m < data[|data| - 1].value then data[|data| - 1].value else m
  }

  /** The peak is at least 0, at least every value, and is 0 or one of the
      values. */
  lemma {:induction false} PeakIsLargest(data: seq<CrossSectionPoint>)
    ensures Peak(data) >= 0.0
    ensures forall k :: 0 <= k < |data| ==> data[k].value <= Peak(data)
    ensures Peak(data) == 0.0 || exists k :: 0 <= k < |data| && data[k].value == Peak(data)
    decreases |data|
  {
    if data != [] {
      var init := data[..|data| - 1];
      PeakIsLargest(init);
      assert forall k :: 0 <= k < |init| ==> data[k] == init[k];
    }
  }

  /** Sum of the peaks of all collisions. */
  function Surplus(cs: seq<Collision>): real {
    if cs == [] then 0.0 else Surplus(cs[..|cs| - 1]) + Peak(cs[|cs| - 1].data)
  }

  method TotalCrossSectionAt(cs: seq<Collision>, energy: real) returns (result: real)
    requires Tabulated(cs)
    ensures result == TotalAt(cs, energy)
  {
    result := 0.0;
    for k := 0 to |cs|
      invariant result == TotalAt(cs[..k], energy)
    {
      assert cs[..k + 1][..k] == cs[..k];
      var v := CrossSectionAt(cs[k], energy);
      result := result + v;
    }
    assert cs[..|cs|] == cs;
  }

  method TotalCrossSectionOfKindAt(cs: seq<Collision>, t: CollisionType, energy: real) returns (result: real)
    requires TabulatedKind(cs, t)
    ensures result == KindTotalAt(cs, t, energy)
  {
    result := 0.0;
    for k := 0 to |cs|
      invariant result == KindTotalAt(cs[..k], t, energy)
    {
      assert cs[..k + 1][..k] == cs[..k];
      if cs[k].kind == t {
        var v := CrossSectionAt(cs[k], energy);
        result := result + v;
      }
    }
    assert cs[..|cs|] == cs;
  }

  /** Sum of each collision's largest value (0 when all are below 0): a
      bound on the total cross section at every energy. */
  method SurplusCrossSection(cs: seq<Collision>) returns (result: real)
    ensures result == Surplus(cs)
    ensures result >= 0.0
    ensures Tabulated(cs) ==> forall e :: TotalAt(cs, e) <= result
  {
    result := 0.0;
    for k := 0 to |cs|
      invariant result == Surplus(cs[..k])
    {
      assert cs[..k + 1][..k] == cs[..k];
      var data := cs[k].data;
      var max := 0.0;
      for n := 0 to |data|
        invariant max == Peak(data[..n])
      {
        assert data[..n + 1][..n] == data[..n];
        if max < data[n].value {
          max := data[n].value;
        }
      }
      assert data[..|data|] == data;
      result := result + max;
    }
    assert cs[..|cs|] == cs;
    SurplusNonNegative(cs);
    SurplusIsMajorant(cs);
  }

  /** SurplusBoundsTotal at every energy at once. */
  lemma SurplusIsMajorant(cs: seq<Collision>)
    ensures Tabulated(cs) ==> forall e :: TotalAt(cs, e) <= Surplus(cs)
  {
    if Tabulated(cs) {
      forall e {
        SurplusBoundsTotal(cs, e);
      }
    }
  }

  lemma {:induction false} SurplusNonNegative(cs: seq<Collision>)
    ensures Surplus(cs) >= 0.0
    decreases |cs|
  {
    if cs != [] {
      SurplusNonNegative(cs[..|cs| - 1]);
      PeakIsLargest(cs[|cs| - 1].data);
    }
  }

  /** The surplus is a majorant: at every energy the total cross section is
      at most the sum of the peaks. */
  lemma {:induction false} SurplusBoundsTotal(cs: seq<Collision>, e: real)
    requires Tabulated(cs)
    ensures TotalAt(cs, e) <= Surplus(cs)
    decreases |cs|
  {
    if cs != [] {
      var init, last := cs[..|cs| - 1], cs[|cs| - 1];
      SurplusBoundsTotal(init, e);
      var i :| 0 <= i < |last.data| && last.data[i].value == MaxValue(last.data);
      PeakIsLargest(last.data);
      assert At(last.data, e) <= last.data[i].value <= Peak(last.data);
    }
  }

  /** Totals add up over a split of the catalog. */
  lemma {:induction false} TotalAtAppend(a: seq<Collision>, b: seq<Collision>, e: real)
    requires Tabulated(a) && Tabulated(b)
    ensures Tabulated(a + b)
    ensures TotalAt(a + b, e) == TotalAt(a, e) + TotalAt(b, e)
    decreases |b|
  {
    if b != [] {
      var init := b[..|b| - 1];
      assert (a + b)[..|a + b| - 1] == a + init;
      assert (a + b)[|a + b| - 1] == b[|b| - 1];
      assert forall k :: 0 <= k < |init| ==> init[k] == b[k];
      TotalAtAppend(a, init, e);
    } else {
      assert a + b == a;
    }
  }

  /** A collision of another type adds nothing to the per-type total, even
      one with an empty table. */
  lemma KindTotalIgnoresOtherTypes(cs: seq<Collision>, c: Collision, t: CollisionType, e: real)
    requires TabulatedKind(cs, t) && c.kind != t
    ensures TabulatedKind(cs + [c], t)
    ensures KindTotalAt(cs + [c], t, e) == KindTotalAt(cs, t, e)
  {
    assert (cs + [c])[..|cs|] == cs;
  }

  /** The per-type totals of the six types add up to the total. */
  lemma {:induction false} KindTotalsAddUp(cs: seq<Collision>, e: real)
    requires Tabulated(cs)
    ensures TotalAt(cs, e) ==
      KindTotalAt(cs, Elastic, e) + KindTotalAt(cs, Effective, e) + KindTotalAt(cs, Excitation, e)
      + KindTotalAt(cs, Attachment, e) + KindTotalAt(cs, Ionization, e) + KindTotalAt(cs, Rotation, e)
    decreases |cs|
  {
    if cs != [] {
      KindTotalsAddUp(cs[..|cs| - 1], e);
    }
  }

  /** With non-negative values, one type's total is at most the total. */
  lemma {:induction false} KindTotalBelowTotal(cs: seq<Collision>, t: CollisionType, e: real)
    requires Tabulated(cs)
    requires forall k, n :: 0 <= k < |cs| && 0 <= n < |cs[k].data| ==> cs[k].data[n].value >= 0.0
    ensures 0.0 <= KindTotalAt(cs, t, e) <= TotalAt(cs, e)
    decreases |cs|
  {
    if cs != [] {
      var last := cs[|cs| - 1];
      KindTotalBelowTotal(cs[..|cs| - 1], t, e);
      var i :| 0 <= i < |last.data| && last.data[i].value == MinValue(last.data);
      assert At(last.data, e) >= 0.0;
    }
  }
}
