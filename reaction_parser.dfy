// parser/reactionParser.cpp, ReactionParser::read: the reaction template file
// read line by line. A line is skipped (blank or comment), opens a directive
// ("[ name ]") or is a data row interpreted according to the current
// directive. The rate rows are collected and, at the end of the file,
// stable-sorted by distance and stored in the template.
module ReactionParser {

  import opened Wrappers
  import opened Utility
  import opened Numbers
  import opened Molecules
  import opened Reactions
  import opened Seqs
  import opened StableSort

  /** operator>> on a REAL target, for one word; None when the word is not a number. */
  type RealReader = string -> Option<real>

  /** Between two lines: the current directive, the template so far and the rate rows in file order. */
  datatype ParseState = ParseState(directive: string, reaction: Reaction, rates: seq<(real, real)>)

  const Start := ParseState("", EmptyReaction, [])

  datatype LineKind = Blank | Comment | Directive | Data

  // ------------------------------------------------------------ line kinds

  /** The number of ' ' characters at the front of s: find_first_not_of(' '). */
  function BlankRun(s: string): (n: nat)
    ensures n <= |s|
    ensures forall j :: 0 <= j < n ==> s[j] == ' '
    ensures n < |s| ==> s[n] != ' '
  {
    if |s| > 0 && s[0] == ' ' then 1 + BlankRun(s[1..]) else 0
  }

  /** The line holds whitespace only (find_first_not_of(" \t\n\v\f\r") finds nothing). */
  predicate AllSpace(line: string)
  {
    SpaceRun(line) == |line|
  }

  /**
   * The skip tests as written: the comment test looks at the first character
   * that is not a ' ', so a comment indented with a tab is not recognised.
   */
  function ClassifyAsWritten(line: string): (k: LineKind)
    ensures k == Directive ==> '[' in line
  {
    if |line| == 0 || AllSpace(line) then Blank
    else
      var b := BlankRun(line);
      assert b < |line| by {
        if b == |line| { assert false; }
      }
      if line[b] == '#' then Comment
      else if '[' in line then Directive
      else Data
  }

  /** The skip tests with the comment test on the first non-whitespace character. */
  function Classify(line: string): (k: LineKind)
    ensures k == Directive ==> '[' in line
  {
    if AllSpace(line) then Blank
    else if line[SpaceRun(line)] == '#' then Comment
    else if '[' in line then Directive
    else Data
  }

  /** A line is a comment exactly when its first non-whitespace character is '#'. */
  predicate IsComment(line: string)
  {
    !AllSpace(line) && line[SpaceRun(line)] == '#'
  }

  // ------------------------------------------------------------- directive

  /**
   * The directive a '[' line opens: the text from after the first '[' up to
   * the first ']', trimmed. The length pos2 - pos - 1 is a std::size_t, so a
   * ']' before the '[' makes it wrap and the rest of the line is taken. No ']'
   * at all is fatal.
   */
  function DirectiveName(line: string): (r: Result<string>)
    requires '[' in line
    ensures r.Err? <==> ']' !in line
  {
    var pos := FirstIndexOf(line, '[');
    var pos2 := FirstIndexOf(line, ']');
    assert pos < |line| by {
      var i :| 0 <= i < |line| && line[i] == '[';
    }
    if pos2 == |line| then Err("couldn't find enclosing ]")
    else
      assert ']' in line;
      match Substr(line, pos + 1, ToSizeT(pos2 - pos - 1))
      case Ok(s) => Ok(Trimmed(s))
      case Err(e) => Err(e)
  }

  /** "[ name ]": the directive is the trimmed text between the brackets. */
  lemma DirectiveBetweenBrackets(pre: string, name: string, post: string)
    requires '[' !in pre && ']' !in pre && ']' !in name && |name| < SizeMod
    ensures DirectiveName(pre + "[" + name + "]" + post) == Ok(Trimmed(name))
  {
    var line := pre + "[" + name + "]" + post;
    assert line[|pre|] == '[';
    FirstIndexAt(line, '[', |pre|);
    assert line[|pre| + 1 + |name|] == ']';
    FirstIndexAt(line, ']', |pre| + 1 + |name|);
    assert ToSizeT(|name|) == |name|;
    assert line[|pre| + 1..|pre| + 1 + |name|] == name;
  }

  /** A ']' before the first '[' wraps the length: the directive is the trimmed rest of the line. */
  lemma ClosingBeforeOpening(line: string)
    requires FirstIndexOf(line, ']') < FirstIndexOf(line, '[') < |line| < SizeMod
    ensures '[' in line
    ensures DirectiveName(line) == Ok(Trimmed(line[FirstIndexOf(line, '[') + 1..]))
  {
    var pos := FirstIndexOf(line, '[');
    var pos2 := FirstIndexOf(line, ']');
    assert line[pos] == '[';
    var len := ToSizeT(pos2 - pos - 1);
    assert len == SizeMod + (pos2 - pos - 1);
    assert pos + 1 + len > |line|;
    assert Substr(line, pos + 1, len) == Ok(line[pos + 1..]);
  }

  /**
   * The directive the code goes on with when a '[' line has no ']': the
   * critical error raises SIGABRT, the handler returns, and substr then runs
   * with pos2 == npos, a length past the end of the line, so the directive is
   * the trimmed rest of the line after '['.
   */
  function DirectiveAfterSignal(line: string): (r: string)
    requires '[' in line && ']' !in line && |line| < SizeMod - 1
    ensures FirstIndexOf(line, '[') < |line|
    ensures r == Trimmed(line[FirstIndexOf(line, '[') + 1..])
  {
    var pos := FirstIndexOf(line, '[');
    assert pos < |line| by {
      var i :| 0 <= i < |line| && line[i] == '[';
    }
    NposLengthTakesRest(line, pos);
    match Substr(line, pos + 1, ToSizeT((SizeMod - 1) - pos - 1))
    case Ok(s) => Trimmed(s)
    case Err(_) => []
  }

  /** substr from just after pos with the wrapped length npos - pos - 1 runs to the end of the text. */
  lemma NposLengthTakesRest(line: string, pos: nat)
    requires pos < |line| < SizeMod - 1
    ensures Substr(line, pos + 1, ToSizeT((SizeMod - 1) - pos - 1)) == Ok(line[pos + 1..])
  {
  }

  lemma FirstIndexAt(s: string, c: char, i: nat)
    requires i < |s| && s[i] == c && forall j :: 0 <= j < i ==> s[j] != c
    ensures FirstIndexOf(s, c) == i
  {
  }

  // -------------------------------------------------------------- data rows

  /** line.erase(line.find("#")): the part before the first '#'. */
  function StripComment(line: string): (r: string)
    ensures '#' !in r
    ensures r <= line
  {
    line[..FirstIndexOf(line, '#')]
  }

  /** Moving an index pair from 1-based numbers to 0-based indices, on std::size_t. */
  function Decremented(p: (nat, nat)): AtomIndex
  {
    (ToSizeT(p.0 - 1), ToSizeT(p.1 - 1))
  }

  /**
   * getAddReactant / getAddProduct, then setName and addAtom on the molecule
   * returned: the first molecule with the id (appended when there is none)
   * takes the name and one more atom; every other molecule is unchanged.
   */
  function PutAtom(ms: seq<Molecule>, molid: nat, molname: string, atomid: nat, atomname: string): (r: seq<Molecule>)
    ensures |r| == |ms| <==> exists j :: 0 <= j < |ms| && ms[j].id == molid
    ensures |ms| <= |r| <= |ms| + 1
    ensures forall j :: 0 <= j < |r| ==> r[j].id == (if j < |ms| then ms[j].id else molid)
    ensures forall j :: 0 <= j < |r| && r[j].id == molid && (forall i :: 0 <= i < j ==> r[i].id != molid) ==>
              r[j].name == molname
              && r[j].atoms == (if j < |ms| then ms[j].atoms else []) + [Atom(atomid, atomname, ZeroVec, ZeroVec)]
    ensures forall j :: 0 <= j < |ms| && (ms[j].id != molid || exists i :: 0 <= i < j && ms[i].id == molid) ==>
              r[j] == ms[j]
  {
    var (ms1, k) := GetAdd(ms, molid);
    ms1[k := AddNewAtom(SetName(ms1[k], molname), atomid, atomname)]
  }

  /** The first four fields of a [reactants] or [products] row; a field never read stays 0 or empty. */
  datatype AtomFields = AtomFields(molNr: int, molname: string, atomname: string, atomNr: int)

  function ReadAtomFields(ls: FieldStream): (FieldStream, AtomFields)
  {
    var (ls, molNr) := ReadInt(ls, 0);
    var (ls, molname) := ReadWord(ls, "");
    var (ls, atomname) := ReadWord(ls, "");
    var (ls, atomNr) := ReadInt(ls, 0);
    (ls, AtomFields(molNr, molname, atomname, atomNr))
  }

  /** [reactants]: molecule number, molecule name, atom name, atom number. */
  function ReactantRow(rx: Reaction, line: string): (r: Reaction)
    ensures r == rx.(reactants := r.reactants)
  {
    var f := ReadAtomFields(LineStream(line)).1;
    rx.(reactants := PutAtom(rx.reactants, ToSizeT(f.molNr), f.molname, ToSizeT(f.atomNr), f.atomname))
  }

  /** The six fields of a [products] row: the atom and the reactant molecule and atom number it comes from. */
  function ProductFields(line: string): (AtomFields, int, int)
  {
    var (ls, f) := ReadAtomFields(LineStream(line));
    var (ls, oldmolNr) := ReadInt(ls, 0);
    var (_, oldatomNr) := ReadInt(ls, 0);
    (f, oldmolNr, oldatomNr)
  }

  /**
   * [products]: the atom joins the product and the transition table gains
   * the row, every number less one.
   */
  function ProductRow(rx: Reaction, line: string): (r: Reaction)
    ensures r == rx.(products := r.products, transitions := r.transitions)
    ensures |r.transitions| == |rx.transitions| + 1 && r.transitions[..|rx.transitions|] == rx.transitions
  {
    var (f, oldmolNr, oldatomNr) := ProductFields(line);
    var rx1 := rx.(products := PutAtom(rx.products, ToSizeT(f.molNr), f.molname, ToSizeT(f.atomNr), f.atomname));
    AddTransition(rx1, ToSizeT(oldmolNr - 1), ToSizeT(oldatomNr - 1), ToSizeT(f.molNr - 1), ToSizeT(f.atomNr - 1))
  }

  /** How many index pairs a criterion type reads: ZONE (upper case only) one; DIST, ANG, DIH two, three, four, each in three spellings; anything else none. */
  function PairCount(kind: string): (n: nat)
    ensures n <= 4
  {
    if kind == "ZONE" then 1
    else if kind == "DIST" || kind == "dist" || kind == "Dist" then 2
    else if kind == "ANG" || kind == "ang" || kind == "Ang" then 3
    else if kind == "DIH" || kind == "dih" || kind == "Dih" then 4
    else 0
  }

  /**
   * n pairs read into one reused pair variable: a read on a failed stream
   * leaves the previous pair's value in place.
   */
  function ReadPairs(ls: FieldStream, n: nat, prev: (nat, nat)): (r: (FieldStream, seq<(nat, nat)>))
    ensures |r.1| == n
    decreases n
  {
    if n == 0 then (ls, [])
    else
      var (ls1, a) := ReadSize(ls, prev.0);
      var (ls2, b) := ReadSize(ls1, prev.1);
      var (ls3, rest) := ReadPairs(ls2, n - 1, (a, b));
      (ls3, [(a, b)] + rest)
  }

  function DecrementAll(ps: seq<(nat, nat)>): (r: seq<AtomIndex>)
    ensures |r| == |ps| && forall i :: 0 <= i < |ps| ==> r[i] == Decremented(ps[i])
  {
    seq(|ps|, i requires 0 <= i < |ps| => Decremented(ps[i]))
  }

  /** The first word of a line, or "" when it has none (operator>> into an empty string). */
  function FirstWord(line: string): string
  {
    if |Words(line)| > 0 then Words(line)[0] else ""
  }

  /**
   * [criteria]: the type, its index pairs, minimum and maximum; the
   * criterion class follows the number of pairs, and a type that reads none
   * is fatal.
   */
  function CriterionRow(rx: Reaction, line: string, toReal: RealReader): (r: Result<Reaction>)
    ensures r.Ok? <==> PairCount(FirstWord(line)) > 0
    ensures r.Ok? ==> r.value == rx.(criteria := r.value.criteria)
                      && |r.value.criteria| == |rx.criteria| + 1
                      && r.value.criteria[..|rx.criteria|] == rx.criteria
                      && |r.value.criteria[|rx.criteria|].indices| == PairCount(FirstWord(line))
  {
    var (kind, ids, minValue, maxValue) := CriterionFields(line, toReal);
    AddCriterion(rx, DecrementAll(ids), (minValue, maxValue))
  }

  /** The type, the pairs it calls for and the two thresholds of a [criteria] row. */
  function CriterionFields(line: string, toReal: RealReader): (r: (string, seq<(nat, nat)>, real, real))
    ensures r.0 == FirstWord(line) && |r.1| == PairCount(r.0)
  {
    var (ls, kind) := ReadWord(LineStream(line), "");
    var (ls, ids) := ReadPairs(ls, PairCount(kind), (0, 0));
    var (ls, minValue) := ReadReal(ls, 0.0, toReal);
    var (_, maxValue) := ReadReal(ls, 0.0, toReal);
    (kind, ids, minValue, maxValue)
  }

  /** [translations]: two index pairs, each read into a fresh pair, and a value. */
  function TranslationRow(rx: Reaction, line: string, toReal: RealReader): (r: Reaction)
    ensures r == rx.(translations := r.translations)
    ensures |r.translations| == |rx.translations| + 1 && r.translations[..|rx.translations|] == rx.translations
  {
    var (p1, p2, value) := TranslationFields(line, toReal);
    AddTranslation(rx, [Decremented(p1), Decremented(p2)], value)
  }

  function TranslationFields(line: string, toReal: RealReader): ((nat, nat), (nat, nat), real)
  {
    var (ls, p1) := ReadPairs(LineStream(line), 1, (0, 0));
    var (ls, p2) := ReadPairs(ls, 1, (0, 0));
    var (_, value) := ReadReal(ls, 0.0, toReal);
    (p1[0], p2[0], value)
  }

  /** [energy] and [activation]: the first field as a value, 0 when there is none. */
  function FirstReal(line: string, toReal: RealReader): real
  {
    ReadReal(LineStream(line), 0.0, toReal).1
  }

  /** [rate]: distance and rate, each 0 when missing. */
  function RateRow(line: string, toReal: RealReader): (real, real)
  {
    var (ls, distance) := ReadReal(LineStream(line), 0.0, toReal);
    var (_, rate) := ReadReal(ls, 0.0, toReal);
    (distance, rate)
  }

  /**
   * A data row under the current directive. The '#' and what follows is cut
   * from the line only for [name]; the other directives read their fields
   * from the line as it was. An unknown directive ignores the row.
   */
  function DataRow(st: ParseState, line: string, toReal: RealReader): (r: Result<ParseState>)
    ensures r.Ok? ==> r.value.directive == st.directive
    ensures r.Err? ==> st.directive == "criteria"
    ensures st.directive != "rate" && r.Ok? ==> r.value.rates == st.rates
    ensures st.directive == "rate" ==> r == Ok(st.(rates := st.rates + [RateRow(line, toReal)]))
  {
    var d := st.directive;
    if d == "name" then Ok(st.(reaction := st.reaction.(name := Trimmed(StripComment(line)))))
    else if d == "reactants" then Ok(st.(reaction := ReactantRow(st.reaction, line)))
    else if d == "products" then Ok(st.(reaction := ProductRow(st.reaction, line)))
    else if d == "criteria" then
      match CriterionRow(st.reaction, line, toReal)
      case Ok(rx) => Ok(st.(reaction := rx))
      case Err(e) => Err(e)
    else if d == "translations" then Ok(st.(reaction := TranslationRow(st.reaction, line, toReal)))
    else if d == "energy" then Ok(st.(reaction := st.reaction.(reactionEnergy := FirstReal(line, toReal))))
    else if d == "activation" then Ok(st.(reaction := st.reaction.(activationEnergy := FirstReal(line, toReal))))
    else if d == "rate" then Ok(st.(rates := st.rates + [RateRow(line, toReal)]))
    else Ok(st)
  }

  /** One line of the file, classified by kind. */
  function StepWith(st: ParseState, line: string, kind: LineKind, toReal: RealReader): (r: Result<ParseState>)
    requires kind == Directive ==> '[' in line
  {
    match kind
    case Blank => Ok(st)
    case Comment => Ok(st)
    case Directive =>
      (match DirectiveName(line)
       case Ok(name) => Ok(st.(directive := name))
       case Err(e) => Err(e))
    case Data => DataRow(st, line, toReal)
  }

  /**
   * One line of the file. Blank lines and comment lines change nothing; a
   * line with a '[' opens a directive and changes nothing else; any other
   * line keeps the directive. Only a '[' without any ']' and a criterion of
   * unknown type are fatal.
   */
  function Step(st: ParseState, line: string, toReal: RealReader): (r: Result<ParseState>)
    ensures AllSpace(line) || IsComment(line) ==> r == Ok(st)
    ensures !AllSpace(line) && !IsComment(line) && '[' in line ==>
              (r.Ok? <==> ']' in line)
              && (r.Ok? ==> r.value == st.(directive := DirectiveName(line).value))
    ensures !AllSpace(line) && !IsComment(line) && '[' !in line ==> r == DataRow(st, line, toReal)
    ensures r.Err? ==> ']' !in line || st.directive == "criteria"
  {
    StepWith(st, line, Classify(line), toReal)
  }

  /** The lines read so far, from the first on. */
  function ParseLines(lines: seq<string>, toReal: RealReader): (r: Result<ParseState>)
  {
    if |lines| == 0 then Ok(Start)
    else
      match ParseLines(lines[..|lines| - 1], toReal)
      case Ok(st) => Step(st, lines[|lines| - 1], toReal)
      case Err(e) => Err(e)
  }

  /** The key the rate table is sorted by. */
  function Distance(p: (real, real)): real { p.0 }

  /**
   * After the last line: the rate rows stable-sorted by distance become the
   * template's rate table. The table is sorted, holds exactly the rows read,
   * and rows with equal distance keep their file order.
   */
  function Finish(st: ParseState): (r: Reaction)
    ensures r == st.reaction.(rate := r.rate)
    ensures SortedBy(r.rate, Distance, RealLess)
    ensures multiset(r.rate) == multiset(st.rates)
    ensures forall d :: Filter(r.rate, KeyIs(Distance, d)) == Filter(st.rates, KeyIs(Distance, d))
  {
    RealLessIsStrictTotalOrder();
    SortBySorted(st.rates, Distance, RealLess);
    SortByPermutes(st.rates, Distance, RealLess);
    var sorted := SortBy(st.rates, Distance, RealLess);
    assert forall d :: Filter(sorted, KeyIs(Distance, d)) == Filter(st.rates, KeyIs(Distance, d)) by {
      forall d {
        SortByStable(st.rates, Distance, RealLess, d);
      }
    }
    st.reaction.(rate := sorted)
  }

  /** ReactionParser::read: a file that cannot be opened is fatal; otherwise every line in turn, then the rate table. */
  function ReadReaction(file: Option<string>, toReal: RealReader): (r: Result<Reaction>)
    ensures file.None? ==> r.Err?
    ensures r.Ok? ==> SortedBy(r.value.rate, Distance, RealLess)
  {
    match file
    case None => Err("file doesn't exist, cannot read reaction")
    case Some(content) =>
      match ParseLines(Split(content, '\n'), toReal)
      case Ok(st) => Ok(Finish(st))
      case Err(e) => Err(e)
  }

  /** The read loop: the lines one at a time, stopping at the first fatal line. */
  method Read(file: Option<string>, toReal: RealReader) returns (r: Result<Reaction>)
    ensures r == ReadReaction(file, toReal)
  {
    if file.None? {
      return Err("file doesn't exist, cannot read reaction");
    }
    var lines := Split(file.value, '\n');
    var st := Start;
    var i := 0;
    while i < |lines|
      invariant 0 <= i <= |lines|
      invariant ParseLines(lines[..i], toReal) == Ok(st)
    {
      ParseLinesStep(lines, i, st, toReal);
      var next := Step(st, lines[i], toReal);
      if next.Err? {
        ParseStopsAtError(lines, i + 1, toReal);
        assert lines[..|lines|] == lines;
        return Err(next.error);
      }
      st := next.value;
      i := i + 1;
    }
    assert lines[..i] == lines;
    r := Ok(Finish(st));
  }

  /** One more line goes through Step from the state the earlier lines left. */
  lemma ParseLinesStep(lines: seq<string>, i: nat, st: ParseState, toReal: RealReader)
    requires i < |lines| && ParseLines(lines[..i], toReal) == Ok(st)
    ensures ParseLines(lines[..i + 1], toReal) == Step(st, lines[i], toReal)
  {
    assert lines[..i + 1][..i] == lines[..i];
  }

  /** Once a line is fatal, the lines after it change nothing. */
  lemma {:induction false} ParseStopsAtError(lines: seq<string>, n: nat, toReal: RealReader)
    requires n <= |lines| && ParseLines(lines[..n], toReal).Err?
    ensures ParseLines(lines, toReal) == ParseLines(lines[..n], toReal)
    decreases |lines| - n
  {
    if n < |lines| {
      assert lines[..n + 1][..n] == lines[..n];
      ParseStopsAtError(lines, n + 1, toReal);
    } else {
      assert lines[..n] == lines;
    }
  }

  // ------------------------------------------------------------ row readers

  /** Integers written as words, each one read back by operator>>. */
  lemma ReadIntText(ls: FieldStream, v: int, old_: int)
    requires !ls.failed && |ls.words| > 0 && ls.words[0] == IntText(v)
    ensures ReadInt(ls, old_) == (ls.(words := ls.words[1..]), v)
    ensures ReadSize(ls, if old_ < 0 then 0 else old_) == (ls.(words := ls.words[1..]), ToSizeT(v))
  {
    ParseIntText(v);
  }

  /** The four atom fields written as words are read back. */
  lemma AtomFieldsRead(ls: FieldStream, f: AtomFields)
    requires !ls.failed && |ls.words| >= 4
    requires ls.words[0] == IntText(f.molNr) && ls.words[1] == f.molname
    requires ls.words[2] == f.atomname && ls.words[3] == IntText(f.atomNr)
    ensures ReadAtomFields(ls) == (ls.(words := ls.words[4..]), f)
  {
    ReadIntText(ls, f.molNr, 0);
    var ls1 := ls.(words := ls.words[1..]);
    var ls2 := ls1.(words := ls1.words[1..]);
    var ls3 := ls2.(words := ls2.words[1..]);
    ReadIntText(ls3, f.atomNr, 0);
    assert ls3.words[1..] == ls.words[4..];
  }

  /** A well-formed [reactants] row puts the atom into the reactant with that number. */
  lemma ReactantRowRead(rx: Reaction, line: string, molid: int, molname: string, atomname: string, atomid: int)
    requires |Words(line)| >= 4
    requires Words(line)[0] == IntText(molid) && Words(line)[1] == molname
    requires Words(line)[2] == atomname && Words(line)[3] == IntText(atomid)
    ensures ReactantRow(rx, line) == rx.(reactants := PutAtom(rx.reactants, ToSizeT(molid), molname, ToSizeT(atomid), atomname))
  {
    AtomFieldsRead(LineStream(line), AtomFields(molid, molname, atomname, atomid));
  }

  /**
   * A well-formed [products] row puts the atom into the product with that
   * number and records the transition from the 1-based numbers as 0-based
   * indices.
   */
  lemma ProductRowRead(rx: Reaction, line: string, molNr: int, molname: string, atomname: string,
                       atomNr: int, oldmolNr: int, oldatomNr: int)
    requires ProductLine(line, AtomFields(molNr, molname, atomname, atomNr), oldmolNr, oldatomNr)
    ensures ProductRow(rx, line).products == PutAtom(rx.products, ToSizeT(molNr), molname, ToSizeT(atomNr), atomname)
    ensures ProductRow(rx, line).transitions ==
              rx.transitions + [Transition(ToSizeT(oldmolNr - 1), ToSizeT(oldatomNr - 1), ToSizeT(molNr - 1), ToSizeT(atomNr - 1))]
  {
    ProductFieldsRead(line, AtomFields(molNr, molname, atomname, atomNr), oldmolNr, oldatomNr);
  }

  /** A [products] row whose first six words are the atom's fields and the reactant numbers, numbers written as operator<< writes them. */
  predicate ProductLine(line: string, f: AtomFields, oldmolNr: int, oldatomNr: int)
  {
    var w := Words(line);
    |w| >= 6
    && w[0] == IntText(f.molNr) && w[1] == f.molname && w[2] == f.atomname && w[3] == IntText(f.atomNr)
    && w[4] == IntText(oldmolNr) && w[5] == IntText(oldatomNr)
  }

  /** The six fields of a [products] row written as words are read back. */
  lemma ProductFieldsRead(line: string, f: AtomFields, oldmolNr: int, oldatomNr: int)
    requires ProductLine(line, f, oldmolNr, oldatomNr)
    ensures ProductFields(line) == (f, oldmolNr, oldatomNr)
  {
    var ls0 := LineStream(line);
    AtomFieldsRead(ls0, f);
    var ls4 := ls0.(words := ls0.words[4..]);
    ReadIntText(ls4, oldmolNr, 0);
    var ls5 := ls4.(words := ls4.words[1..]);
    ReadIntText(ls5, oldatomNr, 0);
  }

  /** The words at 2i and 2i + 1 are the numbers of pair i. */
  predicate PairWords(words: seq<string>, ps: seq<(nat, nat)>)
  {
    |words| >= 2 * |ps|
    && forall i :: 0 <= i < |ps| ==> words[2 * i] == IntText(ps[i].0) && words[2 * i + 1] == IntText(ps[i].1)
  }

  lemma PairWordsTail(words: seq<string>, ps: seq<(nat, nat)>)
    requires PairWords(words, ps) && |ps| > 0
    ensures PairWords(words[2..], ps[1..])
  {
    var rest := words[2..];
    forall i | 0 <= i < |ps| - 1
      ensures rest[2 * i] == IntText(ps[1..][i].0) && rest[2 * i + 1] == IntText(ps[1..][i].1)
    {
      assert rest[2 * i] == words[2 * (i + 1)];
      assert rest[2 * i + 1] == words[2 * (i + 1) + 1];
    }
  }

  /** Pairs of numbers written as words are read back as those pairs. */
  lemma {:induction false} ReadPairsRead(ls: FieldStream, ps: seq<(nat, nat)>, prev: (nat, nat))
    requires !ls.failed && PairWords(ls.words, ps)
    requires forall i :: 0 <= i < |ps| ==> ps[i].0 < SizeMod && ps[i].1 < SizeMod
    ensures ReadPairs(ls, |ps|, prev) == (ls.(words := ls.words[2 * |ps|..]), ps)
    decreases |ps|
  {
    if |ps| > 0 {
      ReadIntText(ls, ps[0].0, prev.0);
      var ls1 := ls.(words := ls.words[1..]);
      ReadIntText(ls1, ps[0].1, prev.1);
      var ls2 := ls1.(words := ls1.words[1..]);
      PairWordsTail(ls.words, ps);
      assert ls2.words == ls.words[2..];
      ReadPairsRead(ls2, ps[1..], ps[0]);
      assert ls2.words[2 * (|ps| - 1)..] == ls.words[2 * |ps|..];
      assert ToSizeT(ps[0].0) == ps[0].0 && ToSizeT(ps[0].1) == ps[0].1;
      assert ReadPairs(ls, |ps|, prev) == (ReadPairs(ls2, |ps| - 1, ps[0]).0, [ps[0]] + ReadPairs(ls2, |ps| - 1, ps[0]).1);
      assert ps == [ps[0]] + ps[1..];
    }
  }

  /** 1-based numbers become 0-based indices. */
  function LessOne(ps: seq<(nat, nat)>): (r: seq<AtomIndex>)
    requires forall i :: 0 <= i < |ps| ==> ps[i].0 >= 1 && ps[i].1 >= 1
    ensures |r| == |ps|
  {
    seq(|ps|, i requires 0 <= i < |ps| => (ps[i].0 - 1, ps[i].1 - 1))
  }

  /** A [criteria] row: a type naming |ps| pairs, the pairs, then two thresholds the reader accepts. */
  predicate CriterionLine(line: string, toReal: RealReader, ps: seq<(nat, nat)>, lo: real, hi: real)
  {
    var w := Words(line);
    |w| >= 2 * |ps| + 3 && PairCount(w[0]) == |ps| && PairWords(w[1..], ps)
    && toReal(w[2 * |ps| + 1]) == Some(lo) && toReal(w[2 * |ps| + 2]) == Some(hi)
  }

  /**
   * A well-formed [criteria] row of a known type adds a criterion of the
   * class its pair count selects, over the 0-based indices of its pairs and
   * with its two thresholds.
   */
  lemma CriterionRowRead(rx: Reaction, line: string, toReal: RealReader, ps: seq<(nat, nat)>, lo: real, hi: real)
    requires CriterionLine(line, toReal, ps, lo, hi) && |ps| > 0
    requires forall i :: 0 <= i < |ps| ==> 1 <= ps[i].0 < SizeMod && 1 <= ps[i].1 < SizeMod
    ensures CriterionRow(rx, line, toReal).Ok?
    ensures CriterionRow(rx, line, toReal).value.criteria ==
              rx.criteria + [Criterion(KindFor(|ps|).value, LessOne(ps), lo, hi, 0.0)]
  {
    CriterionFieldsRead(line, toReal, ps, lo, hi);
    DecrementAllLessOne(ps);
    assert CriterionRow(rx, line, toReal) == AddCriterion(rx, LessOne(ps), (lo, hi));
    assert AddCriterion(rx, LessOne(ps), (lo, hi)) ==
             Ok(rx.(criteria := rx.criteria + [Criterion(KindFor(|ps|).value, LessOne(ps), lo, hi, 0.0)]));
  }

  lemma DecrementAllLessOne(ps: seq<(nat, nat)>)
    requires forall i :: 0 <= i < |ps| ==> 1 <= ps[i].0 < SizeMod && 1 <= ps[i].1 < SizeMod
    ensures DecrementAll(ps) == LessOne(ps)
  {
    forall i | 0 <= i < |ps| ensures DecrementAll(ps)[i] == LessOne(ps)[i] {
      assert Decremented(ps[i]) == (ps[i].0 - 1, ps[i].1 - 1);
    }
  }

  /** The type, pairs and thresholds of a [criteria] row are read back. */
  lemma CriterionFieldsRead(line: string, toReal: RealReader, ps: seq<(nat, nat)>, lo: real, hi: real)
    requires CriterionLine(line, toReal, ps, lo, hi)
    requires forall i :: 0 <= i < |ps| ==> ps[i].0 < SizeMod && ps[i].1 < SizeMod
    ensures CriterionFields(line, toReal) == (Words(line)[0], ps, lo, hi)
  {
    var ls0 := LineStream(line);
    var ls1 := ls0.(words := ls0.words[1..]);
    ReadPairsRead(ls1, ps, (0, 0));
    var ls2 := ls1.(words := ls1.words[2 * |ps|..]);
    assert ls2.words[0] == Words(line)[2 * |ps| + 1];
    assert ls2.words[1..][0] == Words(line)[2 * |ps| + 2];
  }

  /** A [translations] row whose first five words are two index pairs and a value the reader accepts. */
  predicate TranslationLine(line: string, toReal: RealReader, p1: (nat, nat), p2: (nat, nat), value: real)
  {
    var w := Words(line);
    |w| >= 5 && PairWords(w, [p1, p2]) && toReal(w[4]) == Some(value)
  }

  /** The two pairs and the value of a [translations] row are read back. */
  lemma TranslationFieldsRead(line: string, toReal: RealReader, p1: (nat, nat), p2: (nat, nat), value: real)
    requires TranslationLine(line, toReal, p1, p2, value)
    requires p1.0 < SizeMod && p1.1 < SizeMod && p2.0 < SizeMod && p2.1 < SizeMod
    ensures TranslationFields(line, toReal) == (p1, p2, value)
  {
    var ls0 := LineStream(line);
    assert PairWords(ls0.words, [p1]);
    ReadPairsRead(ls0, [p1], (0, 0));
    var ls1 := ls0.(words := ls0.words[2..]);
    assert PairWords(ls1.words, [p2]) by {
      assert ls1.words[0] == Words(line)[2];
      assert ls1.words[1] == Words(line)[3];
    }
    ReadPairsRead(ls1, [p2], (0, 0));
    var ls2 := ls1.(words := ls1.words[2..]);
    assert ls2.words[0] == Words(line)[4];
  }

  /** A well-formed [translations] row adds the translation between the two 0-based atoms. */
  lemma TranslationRowRead(rx: Reaction, line: string, toReal: RealReader, p1: (nat, nat), p2: (nat, nat), value: real)
    requires TranslationLine(line, toReal, p1, p2, value)
    requires 1 <= p1.0 < SizeMod && 1 <= p1.1 < SizeMod && 1 <= p2.0 < SizeMod && 1 <= p2.1 < SizeMod
    ensures TranslationRow(rx, line, toReal).translations ==
              rx.translations + [Translation((p1.0 - 1, p1.1 - 1), (p2.0 - 1, p2.1 - 1), value)]
  {
    TranslationFieldsRead(line, toReal, p1, p2, value);
    assert Decremented(p1) == (p1.0 - 1, p1.1 - 1) && Decremented(p2) == (p2.0 - 1, p2.1 - 1);
  }

  /** Under [name], the name is the trimmed text before the first '#'. */
  lemma NameRowRead(st: ParseState, pre: string, post: string, toReal: RealReader)
    requires st.directive == "name" && '#' !in pre
    ensures DataRow(st, pre + "#" + post, toReal) == Ok(st.(reaction := st.reaction.(name := Trimmed(pre))))
  {
    var line := pre + "#" + post;
    assert line[|pre|] == '#';
    FirstIndexAt(line, '#', |pre|);
    assert line[..|pre|] == pre;
  }

  // --------------------------------------------------------------- finding

  lemma {:induction false} BlankRunWithinSpaceRun(s: string)
    ensures BlankRun(s) <= SpaceRun(s)
    ensures BlankRun(s) < |s| && !IsSpace(s[BlankRun(s)]) ==> BlankRun(s) == SpaceRun(s)
    decreases |s|
  {
    if |s| > 0 && s[0] == ' ' {
      BlankRunWithinSpaceRun(s[1..]);
    }
  }

  /** The two classifications disagree only on a comment whose indentation holds some whitespace other than ' '. */
  lemma AsWrittenDiffersOnlyOnIndentedComments(line: string)
    ensures ClassifyAsWritten(line) != Classify(line) ==>
              IsComment(line) && ClassifyAsWritten(line) != Comment && BlankRun(line) < SpaceRun(line)
  {
    BlankRunWithinSpaceRun(line);
  }

  /**
   * Under [reactants], a comment indented with a tab is read as written as a
   * data row: the first field "#" is not a number, so the stream fails and a
   * reactant with number 0, no name and one atom numbered 0 without a name
   * appears. The corrected classification skips it.
   */
  lemma TabIndentedCommentAsWritten(toReal: RealReader)
    ensures IsComment("\t# c") && ClassifyAsWritten("\t# c") == Data
    ensures StepWith(Start.(directive := "reactants"), "\t# c", ClassifyAsWritten("\t# c"), toReal) ==
              Ok(Start.(directive := "reactants",
                        reaction := EmptyReaction.(reactants := [Molecule(0, "", [Atom(0, "", ZeroVec, ZeroVec)])])))
    ensures Step(Start.(directive := "reactants"), "\t# c", toReal) == Ok(Start.(directive := "reactants"))
  {
    var line := "\t# c";
    TabCommentSpaces();
    assert line[1] == '#' && line[0] != '#';
    assert IsComment(line);
    assert ClassifyAsWritten(line) == Data;
    TabCommentReactantRow();
  }

  /** Read as a [reactants] row, the tab-indented comment yields molecule 0 with atom 0, both unnamed. */
  lemma TabCommentReactantRow()
    ensures ReactantRow(EmptyReaction, "\t# c") ==
              EmptyReaction.(reactants := [Molecule(0, "", [Atom(0, "", ZeroVec, ZeroVec)])])
  {
    TabCommentFields();
    assert ToSizeT(0) == 0;
    assert PutAtom([], 0, "", 0, "") == [Molecule(0, "", [Atom(0, "", ZeroVec, ZeroVec)])];
  }

  /** The first field, "#", is no number: the stream fails and every field keeps its initial value. */
  lemma TabCommentFields()
    ensures ReadAtomFields(LineStream("\t# c")).1 == AtomFields(0, "", "", 0)
  {
    TabCommentWords();
    assert !IsDigit('#');
    var ls := LineStream("\t# c");
    assert ReadInt(ls, 0) == (ls.(failed := true), 0);
  }

  lemma TabCommentSpaces()
    ensures SpaceRun("\t# c") == 1 && BlankRun("\t# c") == 0 && '[' !in "\t# c"
  {
    assert "\t# c"[1..] == "# c";
  }

  lemma TabCommentWords()
    ensures Words("\t# c") == ["#", "c"]
  {
    assert Word("#") && Word("c");
    WordsOfTwo("#", 1, "c");
    assert "\t# c" == ['\t'] + ("#" + Spaces(1) + "c");
    WordsSkipSpace('\t', "#" + Spaces(1) + "c");
  }
}
