// parser/topologyParserGMX.{hpp,cpp}: GROMACS .top and .gro files. read_top
// runs a small state machine over the lines of the .top file, keeping the
// system name and the file's lines for writing; read_gro reads fixed-column
// atom records into a Topology; write_top, write_gro and write_index produce
// the files for the next MD run. A file read is its content (None when it
// cannot be opened); a file written is the sequence of its lines.
module TopologyParser {

  import opened Wrappers
  import opened Utility
  import opened Numbers
  import opened Seqs
  import opened Molecules
  import opened StableSort
  import opened CellGrid
  import opened Renumbering
  import opened Topologies

  /** A conversion of a text to a REAL (std::stof on a column, operator>> on a word); None when it fails. */
  type RealReader = string -> Option<real>

  const UIntMod: int := 0x1_0000_0000

  /** Conversion of an int to unsigned int: modulo 2^32. */
  function ToUInt(x: int): (r: nat)
    ensures r < UIntMod
    ensures 0 <= x < UIntMod ==> r == x
  {
    x % UIntMod
  }

  /**
   * Line i of a file as successive std::getline calls deliver it: past the
   * end the target keeps the last line read, which is the empty line after
   * a final '\n' or the unterminated last line.
   */
  function LineAt(lines: seq<string>, i: nat): string
  {
    if |lines| == 0 then "" else if i < |lines| then lines[i] else lines[|lines| - 1]
  }

  // ===================================================================== .top

  /** The read_top state: the two directive flags, the map, and the parser's system name and stored lines. */
  datatype TopState = TopState(inSystem: bool, inMolecules: bool, molecules: map<string, nat>,
                               systemName: string, content: seq<string>)

  /** A "[ ... ]" line naming the section: find('[') and find(word) both succeed. */
  predicate IsHeader(line: string, word: string)
  {
    '[' in line && HasSubstring(line, word)
  }

  /**
   * "name count" under [molecules]: the name is the first word ("" on an
   * empty line), the count is the second word read as an int and converted
   * to unsigned int, and 0 when there is no second word or it is not a number.
   */
  function MoleculeEntry(line: string): (r: (string, nat))
    ensures |Words(line)| > 0 ==> r.0 == Words(line)[0]
    ensures |Words(line)| == 0 ==> r.0 == ""
    ensures r.1 < UIntMod
    ensures r.1 == if |Words(line)| > 1 && ParseInt(Words(line)[1]).Some? then ToUInt(ParseInt(Words(line)[1]).value) else 0
  {
    var (ls, moltype) := ReadWord(LineStream(line), "");
    (moltype, ToUInt(ReadInt(ls, 0).1))
  }

  /**
   * One line of read_top. After a [system] header the next non-empty line,
   * trimmed, is the system name; after a [molecules] header every non-empty
   * line is an entry for the map, to the end of the file. Every other line
   * is kept when record is set, and a header line containing "molecules"
   * selects [molecules] even when it also contains "system".
   */
  function TopLine(s: TopState, line: string, record: bool): (r: TopState)
    requires !(s.inSystem && s.inMolecules)
    ensures !(r.inSystem && r.inMolecules)
    ensures s.inMolecules ==> r.inMolecules && r.content == s.content && r.systemName == s.systemName
    ensures (s.inSystem || s.inMolecules) && line == "" ==> r == s
    ensures s.inSystem && line != "" ==>
              r == s.(inSystem := false, systemName := Trimmed(line))
    ensures s.inMolecules && line != "" ==>
              r.molecules == s.molecules[MoleculeEntry(line).0 := MoleculeEntry(line).1]
    ensures !s.inSystem && !s.inMolecules ==>
              r.molecules == s.molecules && r.systemName == s.systemName
              && r.content == (if record then s.content + [line] else s.content)
              && r.inMolecules == IsHeader(line, "molecules")
              && r.inSystem == (IsHeader(line, "system") && !IsHeader(line, "molecules"))
  {
    if s.inSystem then
      if line == "" then s else s.(inSystem := false, systemName := Trimmed(line))
    else if s.inMolecules then
      if line == "" then s
      else
        var (moltype, n) := MoleculeEntry(line);
        s.(molecules := s.molecules[moltype := n])
    else
      var s1 :=
        if '[' in line then
          var sys := if HasSubstring(line, "system") then s.(inSystem := true, inMolecules := false) else s;
          if HasSubstring(line, "molecules") then sys.(inSystem := false, inMolecules := true) else sys
        else s;
      if record then s1.(content := s1.content + [line]) else s1
  }

  /** read_top over the lines read so far. */
  function TopFold(s: TopState, lines: seq<string>, record: bool): (r: TopState)
    requires !(s.inSystem && s.inMolecules)
    ensures !(r.inSystem && r.inMolecules)
    ensures s.content <= r.content && |r.content| <= |s.content| + |lines|
  {
    if |lines| == 0 then s
    else TopLine(TopFold(s, lines[..|lines| - 1], record), lines[|lines| - 1], record)
  }

  /** read_top on a file: lines are stored only when none were stored before, at most one per line of the file. */
  function TopResult(content: string, systemName: string, stored: seq<string>): (r: TopState)
    ensures stored <= r.content && |r.content| <= |stored| + |Split(content, '\n')|
  {
    TopFold(TopState(false, false, map[], systemName, stored), Split(content, '\n'), stored == [])
  }

  /** Once in [molecules], the rest of the file never leaves it and touches neither the system name nor the stored lines. */
  lemma {:induction false} MoleculesToTheEnd(s: TopState, lines: seq<string>, record: bool)
    requires s.inMolecules && !s.inSystem
    ensures TopFold(s, lines, record).inMolecules
    ensures TopFold(s, lines, record).content == s.content
    ensures TopFold(s, lines, record).systemName == s.systemName
    decreases |lines|
  {
    if |lines| > 0 {
      MoleculesToTheEnd(s, lines[..|lines| - 1], record);
    }
  }

  /** Without recording, read_top leaves the stored lines as they were. */
  lemma {:induction false} NotRecordingKeepsContent(s: TopState, lines: seq<string>)
    requires !(s.inSystem && s.inMolecules)
    ensures TopFold(s, lines, false).content == s.content
    decreases |lines|
  {
    if |lines| > 0 {
      NotRecordingKeepsContent(s, lines[..|lines| - 1]);
    }
  }

  /** The file's lines are stored on the first read only: a later read_top keeps what the first one stored. */
  lemma StoredOnFirstReadOnly(content: string, systemName: string, stored: seq<string>)
    requires stored != []
    ensures TopResult(content, systemName, stored).content == stored
  {
    NotRecordingKeepsContent(TopState(false, false, map[], systemName, stored), Split(content, '\n'));
  }

  /** A "name count" line written with whitespace between the fields is read back as that entry. */
  lemma MoleculeEntryRead(name: string, gap: nat, count: nat)
    requires Word(name) && gap > 0 && count < UIntMod
    ensures MoleculeEntry(name + Spaces(gap) + Decimal(count)) == (name, count)
  {
    var line := name + Spaces(gap) + Decimal(count);
    WordsOfTwo(name, gap, Decimal(count));
    var ls := LineStream(line);
    var ls1 := ls.(words := ls.words[1..]);
    assert IntText(count) == Decimal(count);
    ParseIntText(count);
    assert ReadInt(ls1, 0).1 == count;
  }

  // -------------------------------------------------------------- write_top

  /** One line of the molecules section as written: the name in a 5-wide left-aligned field, then the count. */
  function MoleculeLineAsWritten(name: string, count: nat): string
  {
    PadRight(name, 5) + Decimal(count)
  }

  /** A name of five characters or more fills its field and runs into the count: read back, both become one name with no count. */
  lemma LongNameRunsIntoCount()
    ensures MoleculeLineAsWritten("ABCDE", 12) == "ABCDE12"
    ensures MoleculeEntry(MoleculeLineAsWritten("ABCDE", 12)) == ("ABCDE12", 0)
  {
    assert Decimal(12) == "12" by {
      assert Decimal(1) == "1";
    }
    var line := "ABCDE12";
    assert line == MoleculeLineAsWritten("ABCDE", 12);
    assert Word(line);
    WordsOfWord(line, []);
    assert line + [] == line;
    assert Words([]) == [];
    var ls := LineStream(line);
    assert ReadWord(ls, "").0.words == [];
  }

  /** The molecules-section line with the count separated from a long name by one space. */
  function MoleculeLine(name: string, count: nat): (r: string)
    ensures |name| < 5 ==> r == MoleculeLineAsWritten(name, count)
  {
    PadRight(name, 5) + (if |name| >= 5 then " " else "") + Decimal(count)
  }

  /** Every line MoleculeLine writes is read back by read_top as the same entry. */
  lemma MoleculeLineRead(name: string, count: nat)
    requires Word(name) && count < UIntMod
    ensures MoleculeEntry(MoleculeLine(name, count)) == (name, count)
  {
    var gap := if |name| >= 5 then 1 else 5 - |name|;
    assert MoleculeLine(name, count) == name + Spaces(gap) + Decimal(count);
    MoleculeEntryRead(name, gap, count);
  }

  /** The number of molecules with the name (getMolecules(name).size()). */
  function CountOf(data: seq<Molecule>, name: string): nat
  {
    |Filter(data, KeyIs(NameOf, name))|
  }

  /** The molecules section: one line per type in the order given. */
  function Section(data: seq<Molecule>, types: seq<string>): (r: seq<string>)
    ensures |r| == |types|
    ensures forall i :: 0 <= i < |types| ==> r[i] == MoleculeLine(types[i], CountOf(data, types[i]))
  {
    seq(|types|, i requires 0 <= i < |types| => MoleculeLine(types[i], CountOf(data, types[i])))
  }

  /** getMoleculetypes: each name once, every name of a molecule, in the order of first occurrence. */
  ghost predicate TypeOrder(data: seq<Molecule>, types: seq<string>)
  {
    && (forall a, b :: 0 <= a < b < |types| ==> types[a] != types[b])
    && (forall n :: n in types <==> exists p :: 0 <= p < |data| && data[p].name == n)
    && (forall a, b :: 0 <= a < b < |types| ==>
          FirstWhere(data, KeyIs(NameOf, types[a])) < FirstWhere(data, KeyIs(NameOf, types[b])))
  }

  /** write_top for one stored line. */
  function TopLineOut(line: string, systemName: string, section: seq<string>): seq<string>
  {
    if IsHeader(line, "system") then [line, systemName]
    else if IsHeader(line, "molecules") then [line] + section
    else [line]
  }

  /** write_top: the stored lines, the system name after the [system] header and the section after the [molecules] header. */
  function TopText(content: seq<string>, systemName: string, section: seq<string>): (r: seq<string>)
    ensures |r| >= |content|
    ensures |content| > 0 ==> r[0] == content[0]
  {
    if |content| == 0 then []
    else TopText(content[..|content| - 1], systemName, section) + TopLineOut(content[|content| - 1], systemName, section)
  }

  /** The map holds the start entries and the types: each type with its count, each other entry unchanged. */
  ghost predicate Recorded(start: map<string, nat>, m: map<string, nat>, data: seq<Molecule>, types: seq<string>)
  {
    && (forall n :: n in m <==> n in start || n in types)
    && (forall i :: 0 <= i < |types| ==> m[types[i]] == CountOf(data, types[i]))
    && (forall n :: n in start && n !in types ==> m[n] == start[n])
  }

  /**
   * read_top, in [molecules], over the section write_top writes for distinct
   * types, records each type with its count, and nothing else.
   */
  lemma SectionReadBack(s: TopState, data: seq<Molecule>, types: seq<string>, record: bool)
    requires s.inMolecules && !s.inSystem
    requires forall a, b :: 0 <= a < b < |types| ==> types[a] != types[b]
    requires forall i :: 0 <= i < |types| ==> Word(types[i]) && CountOf(data, types[i]) < UIntMod
    ensures forall n :: n in TopFold(s, Section(data, types), record).molecules <==> n in s.molecules || n in types
    ensures forall i :: 0 <= i < |types| ==> TopFold(s, Section(data, types), record).molecules[types[i]] == CountOf(data, types[i])
    ensures forall n :: n in s.molecules && n !in types ==> TopFold(s, Section(data, types), record).molecules[n] == s.molecules[n]
  {
    SectionRecorded(s, data, types, record);
  }

  lemma {:induction false} SectionRecorded(s: TopState, data: seq<Molecule>, types: seq<string>, record: bool)
    requires s.inMolecules && !s.inSystem
    requires forall a, b :: 0 <= a < b < |types| ==> types[a] != types[b]
    requires forall i :: 0 <= i < |types| ==> Word(types[i]) && CountOf(data, types[i]) < UIntMod
    ensures Recorded(s.molecules, TopFold(s, Section(data, types), record).molecules, data, types)
    decreases |types|
  {
    if |types| == 0 {
      assert Section(data, types) == [];
    } else {
      SectionRecorded(s, data, types[..|types| - 1], record);
      SectionLastLine(s, data, types, record);
      SectionEntriesStep(s.molecules, TopFold(s, Section(data, types[..|types| - 1]), record).molecules, data, types);
    }
  }

  /** The entries after one more type line: the earlier types keep their counts, the new one gets its own. */
  lemma SectionEntriesStep(start: map<string, nat>, before: map<string, nat>, data: seq<Molecule>, types: seq<string>)
    requires |types| > 0 && forall a, b :: 0 <= a < b < |types| ==> types[a] != types[b]
    requires Recorded(start, before, data, types[..|types| - 1])
    ensures Recorded(start, before[types[|types| - 1] := CountOf(data, types[|types| - 1])], data, types)
  {
    var init := types[..|types| - 1];
    var last := types[|types| - 1];
    forall n
      ensures n in types <==> n in init || n == last
    {
      if n in types {
        var i :| 0 <= i < |types| && types[i] == n;
        if i < |init| { assert init[i] == n; }
      }
    }
    forall i | 0 <= i < |init|
      ensures init[i] != last
    {
      assert types[i] != types[|types| - 1];
    }
  }

  /** The last line of the section sets the count of the last type and changes no other entry. */
  lemma SectionLastLine(s: TopState, data: seq<Molecule>, types: seq<string>, record: bool)
    requires s.inMolecules && !s.inSystem && |types| > 0
    requires Word(types[|types| - 1]) && CountOf(data, types[|types| - 1]) < UIntMod
    ensures TopFold(s, Section(data, types), record).molecules
            == TopFold(s, Section(data, types[..|types| - 1]), record).molecules[types[|types| - 1] := CountOf(data, types[|types| - 1])]
  {
    var init := types[..|types| - 1];
    var last := types[|types| - 1];
    var count := CountOf(data, last);
    var lines := Section(data, types);
    assert lines[..|lines| - 1] == Section(data, init);
    MoleculesToTheEnd(s, Section(data, init), record);
    MoleculeLineRead(last, count);
    assert lines[|lines| - 1] == MoleculeLine(last, count);
  }

  /** The lines of write_top leave every stored line in place, in order, each followed by what it adds. */
  lemma {:induction false} TopTextKeepsLines(content: seq<string>, systemName: string, section: seq<string>)
    ensures |TopText(content, systemName, section)| >= |content|
    ensures forall line :: line in content ==> line in TopText(content, systemName, section)
    decreases |content|
  {
    if |content| > 0 {
      TopTextKeepsLines(content[..|content| - 1], systemName, section);
      var last := content[|content| - 1];
      assert TopLineOut(last, systemName, section)[0] == last;
      forall line | line in content
        ensures line in TopText(content, systemName, section)
      {
        if line != last {
          assert line in content[..|content| - 1];
        }
      }
    }
  }

  // ===================================================================== .gro

  /** One atom record of a .gro file: residue number, residue name and the atom. */
  datatype GroRecord = GroRecord(resid: int, resname: string, atom: Atom)

  /** A 44-character line has no velocities: three zero velocity columns are appended. */
  function Padded(line: string): (r: string)
    ensures |line| == 44 ==> |r| == 68 && r[44..] == "  0.0000" + "  0.0000" + "  0.0000"
    ensures |line| != 44 ==> r == line
  {
    if |line| == 44 then line + "  0.0000" + "  0.0000" + "  0.0000" else line
  }

  /** Columns 0-5, 5-10, 10-15 and 15-20: residue number, residue name, atom name, atom number; names lose their whitespace. */
  function GroIds(line: string): (r: Result<(int, string, string, int)>)
    ensures r.Ok? ==> |line| >= 15
  {
    match Stoi(line[..if |line| < 5 then |line| else 5])
    case Err(e) => Err(e)
    case Ok(resid) =>
      match Substr(line, 5, 5)
      case Err(e) => Err(e)
      case Ok(resname) =>
        match Substr(line, 10, 5)
        case Err(e) => Err(e)
        case Ok(atomname) =>
          match Substr(line, 15, 5)
          case Err(e) => Err(e)
          case Ok(idText) =>
            match Stoi(idText)
            case Err(e) => Err(e)
            case Ok(id) => Ok((resid, RemoveSpaces(resname), RemoveSpaces(atomname), id))
  }

  /** std::stof on the 8-wide column at pos; a failed conversion or a column past the end throws. */
  function GroReal(line: string, pos: nat, toReal: RealReader): (r: Result<real>)
    ensures r.Ok? ==> pos <= |line|
  {
    match Substr(line, pos, 8)
    case Err(e) => Err(e)
    case Ok(text) =>
      match toReal(text)
      case None => Err("stof: no conversion")
      case Some(x) => Ok(x)
  }

  /** Three 8-wide columns from pos. */
  function GroVec(line: string, pos: nat, toReal: RealReader): (r: Result<Vec3>)
    ensures r.Ok? ==> pos + 16 <= |line|
  {
    match GroReal(line, pos, toReal)
    case Err(e) => Err(e)
    case Ok(x) =>
      match GroReal(line, pos + 8, toReal)
      case Err(e) => Err(e)
      case Ok(y) =>
        match GroReal(line, pos + 16, toReal)
        case Err(e) => Err(e)
        case Ok(z) => Ok(Vec3(x, y, z))
  }

  /** One atom line: the four id columns, positions from column 20 and velocities from column 44; the atom number is stored as std::size_t. */
  function GroLine(line: string, toReal: RealReader): (r: Result<GroRecord>)
    ensures r.Ok? ==> |line| >= 60
  {
    match GroIds(line)
    case Err(e) => Err(e)
    case Ok((resid, resname, atomname, id)) =>
      match GroVec(line, 20, toReal)
      case Err(e) => Err(e)
      case Ok(position) =>
        match GroVec(line, 44, toReal)
        case Err(e) => Err(e)
        case Ok(velocity) => Ok(GroRecord(resid, resname, Atom(ToSizeT(id), atomname, position, velocity)))
  }

  /** A 44-character line that reads gets zero velocities, as the appended columns read. */
  lemma ShortLineZeroVelocities(line: string, toReal: RealReader, zero: real)
    requires |line| == 44 && toReal("  0.0000") == Some(zero)
    requires GroLine(Padded(line), toReal).Ok?
    ensures GroLine(Padded(line), toReal).value.atom.velocity == Vec3(zero, zero, zero)
  {
    var p := Padded(line);
    assert p[44..52] == "  0.0000" && p[52..60] == "  0.0000" && p[60..68] == "  0.0000";
  }

  /** The atom records of lines 2 .. n+1. */
  function GroRecords(lines: seq<string>, n: nat, toReal: RealReader): (r: Result<seq<GroRecord>>)
    ensures r.Ok? ==> |r.value| == n
  {
    if n == 0 then Ok([])
    else
      match GroRecords(lines, n - 1, toReal)
      case Err(e) => Err(e)
      case Ok(rs) =>
        match GroLine(Padded(LineAt(lines, n + 1)), toReal)
        case Err(e) => Err(e)
        case Ok(rec) => Ok(rs + [rec])
  }

  /**
   * getAddMolecule(molid, molname).addAtom(atom): the atom joins the first
   * molecule with the id, whatever its name; with no such molecule a new one
   * with the id and name holds it.
   */
  function GroupAtom(ms: seq<Molecule>, molid: nat, molname: string, atom: Atom): (r: seq<Molecule>)
    ensures |r| == |ms| <==> exists j :: 0 <= j < |ms| && ms[j].id == molid
    ensures |ms| <= |r| <= |ms| + 1
    ensures |r| > |ms| ==> r[|ms|] == Molecule(molid, molname, [atom])
    ensures forall j :: 0 <= j < |ms| ==> r[j].id == ms[j].id && r[j].name == ms[j].name
    ensures forall j :: 0 <= j < |ms| ==>
              r[j].atoms == ms[j].atoms + (if j == FirstWhere(ms, HasMoleculeId(molid)) then [atom] else [])
  {
    var k := FirstWhere(ms, HasMoleculeId(molid));
    if k < |ms| then ms[k := AddAtom(ms[k], atom)]
    else
      assert forall j :: 0 <= j < |ms| ==> !HasMoleculeId(molid)(ms[j]);
      ms + [Molecule(molid, molname, [atom])]
  }

  /** The records added one after another. */
  function GroupAll(ms: seq<Molecule>, recs: seq<GroRecord>): seq<Molecule>
  {
    if |recs| == 0 then ms
    else
      var rec := recs[|recs| - 1];
      GroupAtom(GroupAll(ms, recs[..|recs| - 1]), ToSizeT(rec.resid), rec.resname, rec.atom)
  }

  lemma AtomCountUpdate(ms: seq<Molecule>, k: nat, m: Molecule)
    requires k < |ms|
    ensures AtomCount(ms[k := m]) == AtomCount(ms) - |ms[k].atoms| + |m.atoms|
  {
    assert ms == ms[..k] + [ms[k]] + ms[k + 1..];
    assert ms[k := m] == ms[..k] + [m] + ms[k + 1..];
    AtomCountAppend(ms[..k] + [ms[k]], ms[k + 1..]);
    AtomCountAppend(ms[..k], [ms[k]]);
    AtomCountAppend(ms[..k] + [m], ms[k + 1..]);
    AtomCountAppend(ms[..k], [m]);
  }

  /** Every record read adds exactly one atom. */
  lemma {:induction false} GroupAllCount(ms: seq<Molecule>, recs: seq<GroRecord>)
    ensures AtomCount(GroupAll(ms, recs)) == AtomCount(ms) + |recs|
    decreases |recs|
  {
    if |recs| > 0 {
      var before := GroupAll(ms, recs[..|recs| - 1]);
      GroupAllCount(ms, recs[..|recs| - 1]);
      var rec := recs[|recs| - 1];
      var id := ToSizeT(rec.resid);
      var k := FirstWhere(before, HasMoleculeId(id));
      if k < |before| {
        AtomCountUpdate(before, k, AddAtom(before[k], rec.atom));
      } else {
        AtomCountAppend(before, [Molecule(id, rec.resname, [rec.atom])]);
      }
    }
  }

  predicate DistinctIds(ms: seq<Molecule>)
  {
    forall i, j :: 0 <= i < j < |ms| ==> ms[i].id != ms[j].id
  }

  /** Atoms are grouped by residue number: no two molecules share an id if none did before. */
  lemma {:induction false} GroupAllDistinct(ms: seq<Molecule>, recs: seq<GroRecord>)
    requires DistinctIds(ms)
    ensures DistinctIds(GroupAll(ms, recs))
    decreases |recs|
  {
    if |recs| > 0 {
      GroupAllDistinct(ms, recs[..|recs| - 1]);
    }
  }

  /** The three box lengths of the line after the atoms, 0 where a field is missing. */
  function BoxOf(line: string, toReal: RealReader): (r: Vec3)
  {
    var (ls, x) := ReadReal(LineStream(line), 0.0, toReal);
    var (ls, y) := ReadReal(ls, 0.0, toReal);
    var (_, z) := ReadReal(ls, 0.0, toReal);
    Vec3(x, y, z)
  }

  /** The atom count of the second line; a line without a number reads 0. */
  function AtomTotal(lines: seq<string>): (r: int)
  {
    ReadInt(LineStream(LineAt(lines, 1)), 0).1
  }

  /** The atom count is the first word of the second line read as an int, 0 when that line has no word or the word is not a number. */
  lemma AtomTotalRead(lines: seq<string>)
    requires |lines| > 1
    ensures |Words(lines[1])| > 0 && ParseInt(Words(lines[1])[0]).Some? ==> AtomTotal(lines) == ParseInt(Words(lines[1])[0]).value
    ensures |Words(lines[1])| == 0 || ParseInt(Words(lines[1])[0]).None? ==> AtomTotal(lines) == 0
  {
  }

  /** A box line whose first three words convert gives those three lengths; a line without words gives a zero box. */
  lemma BoxOfRead(line: string, toReal: RealReader)
    ensures |Words(line)| == 0 ==> BoxOf(line, toReal) == Vec3(0.0, 0.0, 0.0)
    ensures |Words(line)| >= 3 && toReal(Words(line)[0]).Some? && toReal(Words(line)[1]).Some? && toReal(Words(line)[2]).Some? ==>
              BoxOf(line, toReal) == Vec3(toReal(Words(line)[0]).value, toReal(Words(line)[1]).value, toReal(Words(line)[2]).value)
  {
  }

  function NatOf(x: int): nat { if x < 0 then 0 else x }

  // -------------------------------------------------------------- write_gro

  /** Fixed or default floating-point notation with a precision. */
  datatype Notation = Fixed(precision: nat) | General(precision: nat)

  /** The text operator<< writes for a REAL in the given notation (not modelled in detail). */
  type RealWriter = (real, Notation) -> string

  /** The four id columns: residue number right-aligned, residue name left-aligned, atom name and number right-aligned, each 5 wide. */
  function GroIdText(molid: nat, molname: string, atomname: string, atomid: nat): (r: string)
    ensures |r| >= 20
  {
    PadLeft(Decimal(molid), 5) + PadRight(molname, 5) + PadLeft(atomname, 5) + PadLeft(Decimal(atomid), 5)
  }

  function VecText(v: Vec3, n: Notation, show: RealWriter): (r: string)
    ensures |r| >= 24
  {
    PadLeft(show(v.x, n), 8) + PadLeft(show(v.y, n), 8) + PadLeft(show(v.z, n), 8)
  }

  /** One atom line of write_gro: long enough for every column read_gro reads (the last velocity column ends at 68). */
  function GroAtomLine(m: Molecule, a: Atom, show: RealWriter): (r: string)
    ensures |r| >= 68
  {
    GroIdText(m.id, m.name, a.name, a.id) + VecText(a.position, Fixed(3), show) + VecText(a.velocity, Fixed(4), show)
  }

  /** The ids and names of an atom line that fit their 5-wide columns are read back by read_gro. */
  lemma GroAtomLineReadBack(m: Molecule, a: Atom, show: RealWriter)
    requires |Decimal(m.id)| <= 5 && |m.name| <= 5 && |a.name| <= 5 && |Decimal(a.id)| <= 5
    requires forall j :: 0 <= j < |m.name| ==> !IsSpace(m.name[j])
    requires forall j :: 0 <= j < |a.name| ==> !IsSpace(a.name[j])
    ensures GroIds(GroAtomLine(m, a, show)) == Ok((m.id as int, m.name, a.name, a.id as int))
  {
    var rest := VecText(a.position, Fixed(3), show) + VecText(a.velocity, Fixed(4), show);
    assert GroAtomLine(m, a, show) == GroIdText(m.id, m.name, a.name, a.id) + rest;
    GroIdsReadBack(m.id, m.name, a.name, a.id, rest);
  }

  function MoleculeGroLines(m: Molecule, show: RealWriter): (r: seq<string>)
    ensures |r| == |m.atoms|
  {
    seq(|m.atoms|, i requires 0 <= i < |m.atoms| => GroAtomLine(m, m.atoms[i], show))
  }

  function AtomLines(ms: seq<Molecule>, show: RealWriter): (r: seq<string>)
    ensures |r| == AtomCount(ms)
  {
    if |ms| == 0 then [] else MoleculeGroLines(ms[0], show) + AtomLines(ms[1..], show)
  }

  /**
   * write_gro: the system name with a note, the atom count 6 wide, one line
   * per atom in list order, and the box lengths 10 wide. std::fixed stays set
   * from the first atom on, so the box is in fixed notation unless there was
   * no atom.
   */
  function GroText(systemName: string, ms: seq<Molecule>, box: Vec3, show: RealWriter): (r: seq<string>)
    ensures |r| == AtomCount(ms) + 3
  {
    var n := if AtomCount(ms) > 0 then Fixed(6) else General(6);
    [systemName + " (created by reactiveMD)", PadLeft(Decimal(AtomCount(ms)), 6)]
    + AtomLines(ms, show)
    + [PadLeft(show(box.x, n), 10) + PadLeft(show(box.y, n), 10) + PadLeft(show(box.z, n), 10)]
  }

  /** The atom count write_gro puts in the second line is what read_gro reads from it. */
  lemma GroCountReadBack(systemName: string, ms: seq<Molecule>, box: Vec3, show: RealWriter)
    ensures AtomTotal(GroText(systemName, ms, box, show)) == AtomCount(ms)
  {
    GroCountLine(systemName, ms, box, show);
    PaddedCountReads(AtomCount(ms));
  }

  /** A count written right-aligned in six columns is read back by operator>>. */
  lemma PaddedCountReads(n: nat)
    ensures ReadInt(LineStream(PadLeft(Decimal(n), 6)), 0).1 == n
  {
    PaddedWord(Decimal(n), 6);
    assert IntText(n) == Decimal(n);
    ParseIntText(n);
  }

  lemma GroCountLine(systemName: string, ms: seq<Molecule>, box: Vec3, show: RealWriter)
    ensures LineAt(GroText(systemName, ms, box, show), 1) == PadLeft(Decimal(AtomCount(ms)), 6)
  {
    var lines := GroText(systemName, ms, box, show);
    assert lines[1] == PadLeft(Decimal(AtomCount(ms)), 6);
  }

  /**
   * The id columns write_gro writes are read back by read_gro when each
   * value takes at most 5 characters and the names hold no whitespace.
   */
  lemma GroIdsReadBack(molid: nat, molname: string, atomname: string, atomid: nat, rest: string)
    requires |Decimal(molid)| <= 5 && |molname| <= 5 && |atomname| <= 5 && |Decimal(atomid)| <= 5
    requires forall j :: 0 <= j < |molname| ==> !IsSpace(molname[j])
    requires forall j :: 0 <= j < |atomname| ==> !IsSpace(atomname[j])
    ensures GroIds(GroIdText(molid, molname, atomname, atomid) + rest) == Ok((molid as int, molname, atomname, atomid as int))
  {
    var c0 := PadLeft(Decimal(molid), 5);
    var c1 := PadRight(molname, 5);
    var c2 := PadLeft(atomname, 5);
    var c3 := PadLeft(Decimal(atomid), 5);
    var line := c0 + c1 + c2 + c3 + rest;
    assert GroIdText(molid, molname, atomname, atomid) + rest == line;
    GroColumns(c0, c1, c2, c3, rest);
    assert IntText(molid) == Decimal(molid) && IntText(atomid) == Decimal(atomid);
    StoiPadded(molid, 5);
    StoiPadded(atomid, 5);
    PadRightRecovered(molname, 5);
    PadLeftRecovered(atomname, 5);
  }

  /** Four 5-wide columns followed by anything are read back column by column. */
  lemma GroColumns(c0: string, c1: string, c2: string, c3: string, rest: string)
    requires |c0| == 5 && |c1| == 5 && |c2| == 5 && |c3| == 5
    ensures var line := c0 + c1 + c2 + c3 + rest;
            line[..5] == c0 && Substr(line, 5, 5) == Ok(c1) && Substr(line, 10, 5) == Ok(c2) && Substr(line, 15, 5) == Ok(c3)
  {
    var line := c0 + c1 + c2 + c3 + rest;
    assert line[..5] == c0;
    assert line[5..10] == c1;
    assert line[10..15] == c2;
    assert line[15..20] == c3;
  }

  // ------------------------------------------------------------ write_index

  /** One index file: the header, then every number followed by a space, then the end of the line; the numbers read back in order. */
  function IndexText(ids: seq<nat>): (r: string)
    ensures |r| >= 7 && r[..6] == "[xxx]\n" && r[|r| - 1] == '\n'
    ensures Words(r[6..|r| - 1]) == Decimals(ids)
  {
    NumbersReadBack(ids);
    var r := "[xxx]\n" + NumbersText(ids) + "\n";
    assert r[6..|r| - 1] == NumbersText(ids);
    r
  }

  function NumbersText(ids: seq<nat>): string
  {
    if |ids| == 0 then [] else Decimal(ids[0]) + " " + NumbersText(ids[1..])
  }

  function Firsts(rs: seq<Record>): (r: seq<nat>)
    ensures |r| == |rs| && forall i :: 0 <= i < |rs| ==> r[i] == rs[i].first
  {
    seq(|rs|, i requires 0 <= i < |rs| => rs[i].first)
  }

  function Seconds(rs: seq<Record>): (r: seq<nat>)
    ensures |r| == |rs| && forall i :: 0 <= i < |rs| ==> r[i] == rs[i].second
  {
    seq(|rs|, i requires 0 <= i < |rs| => rs[i].second)
  }

  /** write_index: the reactant file lists the old atom ids of the atom records, the product file the new ones, in the same order. */
  function WriteIndex(atomRecords: seq<Record>): (r: (string, string))
    ensures |r.0| >= 7 && |r.1| >= 7
    ensures |Words(r.0[6..|r.0| - 1])| == |atomRecords| && |Words(r.1[6..|r.1| - 1])| == |atomRecords|
    ensures forall i :: 0 <= i < |atomRecords| ==> Words(r.0[6..|r.0| - 1])[i] == Decimal(atomRecords[i].first)
    ensures forall i :: 0 <= i < |atomRecords| ==> Words(r.1[6..|r.1| - 1])[i] == Decimal(atomRecords[i].second)
  {
    (IndexText(Firsts(atomRecords)), IndexText(Seconds(atomRecords)))
  }

  function Decimals(ids: seq<nat>): (r: seq<string>)
    ensures |r| == |ids| && forall i :: 0 <= i < |ids| ==> r[i] == Decimal(ids[i])
  {
    seq(|ids|, i requires 0 <= i < |ids| => Decimal(ids[i]))
  }

  /** The numbers of an index line are read back, in order, as the words of the line. */
  lemma {:induction false} NumbersReadBack(ids: seq<nat>)
    ensures Words(NumbersText(ids)) == Decimals(ids)
    decreases |ids|
  {
    if |ids| == 0 {
      assert Words([]) == [];
    } else {
      NumberThenRest(ids);
      NumbersReadBack(ids[1..]);
      DecimalsCons(ids);
    }
  }

  lemma DecimalsCons(ids: seq<nat>)
    requires |ids| > 0
    ensures Decimals(ids) == [Decimal(ids[0])] + Decimals(ids[1..])
  {
    var r := [Decimal(ids[0])] + Decimals(ids[1..]);
    assert forall i :: 0 <= i < |ids| ==> r[i] == Decimal(ids[i]);
  }

  /** The first number of an index line is its first word, the rest of the line gives the other words. */
  lemma NumberThenRest(ids: seq<nat>)
    requires |ids| > 0
    ensures Words(NumbersText(ids)) == [Decimal(ids[0])] + Words(NumbersText(ids[1..]))
  {
    var d := Decimal(ids[0]);
    var rest := NumbersText(ids[1..]);
    assert NumbersText(ids) == d + ([' '] + rest);
    WordsOfWord(d, [' '] + rest);
    WordsSkipSpace(' ', rest);
  }

  /** Both index files list one number per atom record, the reactant file the first ids and the product file the second. */
  lemma IndexFilesReadBack(atomRecords: seq<Record>)
    ensures Words(NumbersText(Firsts(atomRecords))) == Decimals(Firsts(atomRecords))
    ensures Words(NumbersText(Seconds(atomRecords))) == Decimals(Seconds(atomRecords))
    ensures WriteIndex(atomRecords).0 == "[xxx]\n" + NumbersText(Firsts(atomRecords)) + "\n"
    ensures WriteIndex(atomRecords).1 == "[xxx]\n" + NumbersText(Seconds(atomRecords)) + "\n"
  {
    NumbersReadBack(Firsts(atomRecords));
    NumbersReadBack(Seconds(atomRecords));
  }

  // ==================================================================== parser

  class TopologyParserGMX {

    var systemName: string
    var topologyFileContent: seq<string>

    constructor ()
      ensures systemName == "" && topologyFileContent == []
    {
      systemName := "";
      topologyFileContent := [];
    }

    /**
     * read_top: the molecule counts of the [molecules] section; the system
     * name and, on the first read only, the file's lines are kept. A file
     * that cannot be opened is fatal.
     */
    method ReadTop(file: Option<string>) returns (r: Result<map<string, nat>>)
      modifies this
      ensures file.None? ==> r.Err? && systemName == old(systemName) && topologyFileContent == old(topologyFileContent)
      ensures file.Some? ==> r == Ok(TopResult(file.value, old(systemName), old(topologyFileContent)).molecules)
      ensures file.Some? ==> systemName == TopResult(file.value, old(systemName), old(topologyFileContent)).systemName
      ensures file.Some? ==> topologyFileContent == TopResult(file.value, old(systemName), old(topologyFileContent)).content
    {
      if file.None? {
        return Err("topology file doesn't exist, cannot read topology");
      }
      var lines := Split(file.value, '\n');
      var record := topologyFileContent == [];
      ghost var s0 := TopState(false, false, map[], systemName, topologyFileContent);
      var inSystem, inMolecules := false, false;
      var molecules: map<string, nat> := map[];
      var i := 0;
      while i < |lines|
        invariant 0 <= i <= |lines|
        invariant TopFold(s0, lines[..i], record) == TopState(inSystem, inMolecules, molecules, systemName, topologyFileContent)
      {
        assert lines[..i + 1][..i] == lines[..i];
        var line := lines[i];
        if inSystem {
          if line != "" {
            systemName := TrimString(line);
            inSystem := false;
          }
        } else if inMolecules {
          if line != "" {
            var (moltype, n) := MoleculeEntry(line);
            molecules := molecules[moltype := n];
          }
        } else {
          if '[' in line {
            if HasSubstring(line, "system") {
              inSystem, inMolecules := true, false;
            }
            if HasSubstring(line, "molecules") {
              inSystem, inMolecules := false, true;
            }
          }
          if record {
            topologyFileContent := topologyFileContent + [line];
          }
        }
        i := i + 1;
      }
      assert lines[..i] == lines;
      r := Ok(molecules);
    }

    /**
     * read_gro: the atom count from the second line, that many atom records
     * grouped into the topology's molecules by residue number, then the box
     * and the cell counts derived from it. A file that cannot be opened, a
     * record column that cannot be converted or a line too short for its
     * columns is fatal.
     */
    method ReadGro(file: Option<string>, top: Topology, toReal: RealReader, cellsFor: Vec3 -> CellCounts)
      returns (r: Result<nat>)
      modifies top
      ensures file.None? ==> r.Err? && top.data == old(top.data)
      ensures file.Some? ==> (r.Ok? <==> GroRead(file.value, toReal).Ok?)
      ensures r.Ok? ==> file.Some? && GroRead(file.value, toReal).Ok?
      ensures r.Ok? ==> r.value == |GroRead(file.value, toReal).value|
                        && top.data == GroupAll(old(top.data), GroRead(file.value, toReal).value)
      ensures r.Ok? ==> top.dimensions == BoxOf(LineAt(Split(file.value, '\n'), r.value + 2), toReal)
                        && top.cellNumbers == cellsFor(top.dimensions)
      ensures top.moleculeRecords == old(top.moleculeRecords) && top.atomRecords == old(top.atomRecords)
    {
      if file.None? {
        return Err("structure file doesn't exist, cannot read structure");
      }
      var lines := Split(file.value, '\n');
      var total := AtomTotal(lines);
      assert GroRead(file.value, toReal) == GroRecords(lines, NatOf(total), toReal);
      var counter := ReadGroRecords(lines, total, top, toReal);
      if counter.Err? {
        return Err(counter.error);
      }
      var box := BoxOf(LineAt(lines, counter.value + 2), toReal);
      top.SetDimensions(box);
      top.SetCellNumbers(cellsFor(box));
      r := Ok(counter.value);
    }
  }

  /**
   * The record loop of read_gro: as many records as the atom count says,
   * each grouped into the topology as it is read; the first record that
   * cannot be read is fatal.
   */
  method ReadGroRecords(lines: seq<string>, total: int, top: Topology, toReal: RealReader) returns (r: Result<nat>)
    modifies top
    ensures r.Ok? <==> GroRecords(lines, NatOf(total), toReal).Ok?
    ensures r.Ok? ==> r.value == NatOf(total)
                      && top.data == GroupAll(old(top.data), GroRecords(lines, NatOf(total), toReal).value)
    ensures top.moleculeRecords == old(top.moleculeRecords) && top.atomRecords == old(top.atomRecords)
  {
    var counter := 0;
    ghost var recs: seq<GroRecord> := [];
    ghost var data0, moleculeRecords0, atomRecords0 := top.data, top.moleculeRecords, top.atomRecords;
    while counter < total
      invariant 0 <= counter <= NatOf(total)
      invariant GroRecords(lines, counter, toReal) == Ok(recs)
      invariant top.data == GroupAll(data0, recs)
      invariant top.moleculeRecords == moleculeRecords0 && top.atomRecords == atomRecords0
    {
      var rec := GroLine(Padded(LineAt(lines, counter + 2)), toReal);
      if rec.Err? {
        GroRecordsFail(lines, counter, toReal);
        GroRecordsStop(lines, counter + 1, NatOf(total), toReal);
        return Err(rec.error);
      }
      AddGroRecord(top, rec.value, data0, recs);
      GroRecordsNext(lines, counter, toReal, recs, rec.value);
      recs := recs + [rec.value];
      counter := counter + 1;
    }
    assert counter == NatOf(total);
    r := Ok(counter);
  }

  /** The records read_gro reads from a file. */
  function GroRead(content: string, toReal: RealReader): (r: Result<seq<GroRecord>>)
    ensures r.Ok? ==> |r.value| == NatOf(AtomTotal(Split(content, '\n')))
  {
    var lines := Split(content, '\n');
    GroRecords(lines, NatOf(AtomTotal(lines)), toReal)
  }

  /** getAddMolecule(resid, resname).addAtom(atom) on the topology, whose molecules so far are the records recs grouped into ms. */
  method AddGroRecord(top: Topology, rec: GroRecord, ghost ms: seq<Molecule>, ghost recs: seq<GroRecord>)
    requires top.data == GroupAll(ms, recs)
    modifies top
    ensures top.data == GroupAll(ms, recs + [rec])
    ensures top.moleculeRecords == old(top.moleculeRecords) && top.atomRecords == old(top.atomRecords)
  {
    ghost var before := top.data;
    var molid := ToSizeT(rec.resid);
    var index := top.GetAddMolecule(molid, rec.resname);
    top.SetMoleculeAt(index, AddAtom(top.data[index], rec.atom));
    if FirstWhere(before, HasMoleculeId(molid)) == |before| {
      assert [] + [rec.atom] == [rec.atom];
      assert top.data == before + [Molecule(molid, rec.resname, [rec.atom])];
    }
    GroupAllNext(ms, recs, rec);
  }

  lemma GroRecordsNext(lines: seq<string>, n: nat, toReal: RealReader, recs: seq<GroRecord>, rec: GroRecord)
    requires GroRecords(lines, n, toReal) == Ok(recs)
    requires GroLine(Padded(LineAt(lines, n + 2)), toReal) == Ok(rec)
    ensures GroRecords(lines, n + 1, toReal) == Ok(recs + [rec])
  {
  }

  lemma GroRecordsFail(lines: seq<string>, n: nat, toReal: RealReader)
    requires GroLine(Padded(LineAt(lines, n + 2)), toReal).Err?
    ensures GroRecords(lines, n + 1, toReal).Err?
  {
  }

  lemma GroupAllNext(ms: seq<Molecule>, recs: seq<GroRecord>, rec: GroRecord)
    ensures GroupAll(ms, recs + [rec]) == GroupAtom(GroupAll(ms, recs), ToSizeT(rec.resid), rec.resname, rec.atom)
  {
    assert (recs + [rec])[..|recs|] == recs;
  }

  /** Once a record fails to read, so do the records of every longer count. */
  lemma {:induction false} GroRecordsStop(lines: seq<string>, n: nat, m: nat, toReal: RealReader)
    requires n <= m && GroRecords(lines, n, toReal).Err?
    ensures GroRecords(lines, m, toReal).Err?
    decreases m - n
  {
    if n < m {
      GroRecordsStop(lines, n + 1, m, toReal);
    }
  }

  /**
   * write_top: the molecule types in first-occurrence order and their
   * counts make the section written after the [molecules] header.
   */
  method WriteTop(parser: TopologyParserGMX, top: Topology) returns (types: seq<string>, lines: seq<string>)
    ensures TypeOrder(top.data, types)
    ensures lines == TopText(parser.topologyFileContent, parser.systemName, Section(top.data, types))
  {
    types := top.GetMoleculeTypes();
    var section := MoleculesSection(top, types);
    lines := TopLines(parser.topologyFileContent, parser.systemName, section);
  }

  /** The section loop of write_top: one line per type with the number of molecules of that name. */
  method MoleculesSection(top: Topology, types: seq<string>) returns (section: seq<string>)
    ensures section == Section(top.data, types)
  {
    section := [];
    var t := 0;
    while t < |types|
      invariant 0 <= t <= |types|
      invariant section == Section(top.data, types[..t])
    {
      var found := top.GetMolecules(types[t]);
      section := section + [MoleculeLine(types[t], |found|)];
      t := t + 1;
    }
    assert types[..t] == types;
  }

  /** The output loop of write_top: every stored line, with the system name or the section after its header. */
  method TopLines(content: seq<string>, systemName: string, section: seq<string>) returns (lines: seq<string>)
    ensures lines == TopText(content, systemName, section)
  {
    lines := [];
    var i := 0;
    while i < |content|
      invariant 0 <= i <= |content|
      invariant lines == TopText(content[..i], systemName, section)
    {
      assert content[..i + 1][..i] == content[..i];
      var line := content[i];
      if '[' in line && HasSubstring(line, "system") {
        lines := lines + [line, systemName];
      } else if '[' in line && HasSubstring(line, "molecules") {
        lines := lines + [line] + section;
      } else {
        lines := lines + [line];
      }
      i := i + 1;
    }
    assert content[..i] == content;
  }
}
