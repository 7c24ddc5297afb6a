// The text conversions the two parsers rely on: the words a std::stringstream
// extracts with operator>>, decimal integers as operator>> and std::stoi read
// them and operator<< writes them, std::string::substr, and std::setw padding.
// Decimal fractions are left to a conversion function given as a parameter.
module Numbers {

  import opened Wrappers
  import opened Seqs
  import opened Utility

  // ------------------------------------------------------------------ words

  /** The number of whitespace characters at the front of s. */
  function SpaceRun(s: string): (n: nat)
    ensures n <= |s|
    ensures forall j :: 0 <= j < n ==> IsSpace(s[j])
    ensures n < |s| ==> !IsSpace(s[n])
  {
    if |s| > 0 && IsSpace(s[0]) then 1 + SpaceRun(s[1..]) else 0
  }

  /** The number of non-whitespace characters at the front of s. */
  function WordRun(s: string): (n: nat)
    ensures n <= |s|
    ensures forall j :: 0 <= j < n ==> !IsSpace(s[j])
    ensures n < |s| ==> IsSpace(s[n])
  {
    if |s| > 0 && !IsSpace(s[0]) then 1 + WordRun(s[1..]) else 0
  }

  /** A word: a non-empty run of non-whitespace characters. */
  predicate Word(w: string)
  {
    |w| > 0 && forall j :: 0 <= j < |w| ==> !IsSpace(w[j])
  }

  /** The words of s, in order: what successive operator>> into strings extract. */
  function Words(s: string): (r: seq<string>)
    ensures forall k :: 0 <= k < |r| ==> Word(r[k])
    decreases |s|
  {
    var i := SpaceRun(s);
    if i == |s| then []
    else
      var t := s[i..];
      var k := WordRun(t);
      [t[..k]] + Words(t[k..])
  }

  lemma WordsSkipSpace(c: char, s: string)
    requires IsSpace(c)
    ensures Words([c] + s) == Words(s)
  {
    assert ([c] + s)[1..] == s;
    var i := SpaceRun(s);
    assert SpaceRun([c] + s) == 1 + i;
    assert ([c] + s)[1 + i..] == s[i..];
  }

  /** A word padded on the left is still that one word. */
  lemma PaddedWord(w: string, width: nat)
    requires Word(w)
    ensures Words(PadLeft(w, width)) == [w]
  {
    var pad := if |w| < width then width - |w| else 0;
    assert PadLeft(w, width) == Spaces(pad) + w;
    WordsSkipSpaces(pad, w);
    WordsOfWord(w, []);
    assert w + [] == w;
    assert Words([]) == [];
  }

  lemma WordsOfWord(w: string, rest: string)
    requires Word(w) && (rest == [] || IsSpace(rest[0]))
    ensures Words(w + rest) == [w] + Words(rest)
  {
    var s := w + rest;
    assert SpaceRun(s) == 0;
    WordRunOfWord(w, rest);
    assert s[0..] == s;
    assert s[..|w|] == w && s[|w|..] == rest;
  }

  lemma {:induction false} WordRunOfWord(w: string, rest: string)
    requires (forall j :: 0 <= j < |w| ==> !IsSpace(w[j])) && (rest == [] || IsSpace(rest[0]))
    ensures WordRun(w + rest) == |w|
    decreases |w|
  {
    if |w| > 0 {
      assert (w + rest)[1..] == w[1..] + rest;
      WordRunOfWord(w[1..], rest);
    } else {
      assert w + rest == rest;
    }
  }

  lemma {:induction false} WordsSkipSpaces(n: nat, s: string)
    ensures Words(Spaces(n) + s) == Words(s)
    decreases n
  {
    if n > 0 {
      assert Spaces(n) + s == [' '] + (Spaces(n - 1) + s);
      WordsSkipSpace(' ', Spaces(n - 1) + s);
      WordsSkipSpaces(n - 1, s);
    } else {
      assert Spaces(n) + s == s;
    }
  }

  /** Two words with at least one space between them are read back as those two words. */
  lemma WordsOfTwo(a: string, gap: nat, b: string)
    requires Word(a) && Word(b) && gap > 0
    ensures Words(a + Spaces(gap) + b) == [a, b]
  {
    assert a + Spaces(gap) + b == a + (Spaces(gap) + b);
    WordsOfWord(a, Spaces(gap) + b);
    WordsSkipSpaces(gap, b);
    WordsOfWord(b, []);
    assert b + [] == b;
    assert Words([]) == [];
  }

  // --------------------------------------------------------------- integers

  predicate IsDigit(c: char) { '0' <= c <= '9' }

  predicate AllDigits(w: string)
  {
    |w| > 0 && forall j :: 0 <= j < |w| ==> IsDigit(w[j])
  }

  function DigitChar(d: nat): (c: char)
    requires d < 10
    ensures IsDigit(c) && c as int - '0' as int == d
  {
    ('0' as int + d) as char
  }

  /** The value of a string of decimal digits. */
  function DigitsValue(w: string): nat
    requires forall j :: 0 <= j < |w| ==> IsDigit(w[j])
  {
    if |w| == 0 then 0
    else
      assert IsDigit(w[|w| - 1]);
      10 * DigitsValue(w[..|w| - 1]) + (w[|w| - 1] as int - '0' as int)
  }

  /** operator<< of a non-negative integer: its decimal digits, without leading zeros. */
  function Decimal(n: nat): (r: string)
    ensures AllDigits(r)
    ensures n >= 10 ==> r[0] != '0'
  {
    if n < 10 then [DigitChar(n)] else Decimal(n / 10) + [DigitChar(n % 10)]
  }

  /** Reading the digits operator<< writes gives the number back. */
  lemma {:induction false} DecimalValue(n: nat)
    ensures DigitsValue(Decimal(n)) == n
    decreases n
  {
    if n >= 10 {
      var r := Decimal(n);
      assert r[..|r| - 1] == Decimal(n / 10);
      DecimalValue(n / 10);
    }
  }

  /** operator<< of an integer. */
  function IntText(i: int): (r: string)
    ensures |r| > 0 && forall j :: 0 <= j < |r| ==> !IsSpace(r[j])
  {
    if i < 0 then "-" + Decimal(-i) else Decimal(i)
  }

  /** operator>> into an int, on a word that is a decimal literal with an optional sign; None for any other word. */
  function ParseInt(w: string): (r: Option<int>)
    ensures r.Some? ==> |w| > 0
  {
    if AllDigits(w) then Some(DigitsValue(w))
    else if |w| > 1 && (w[0] == '-' || w[0] == '+') && AllDigits(w[1..]) then
      var v: int := DigitsValue(w[1..]);
      Some(if w[0] == '-' then -v else v)
    else None
  }

  /** What operator<< writes for an int, operator>> reads back. */
  lemma ParseIntText(i: int)
    ensures ParseInt(IntText(i)) == Some(i)
  {
    if i < 0 {
      var d := Decimal(-i);
      assert IntText(i)[1..] == d;
      assert !AllDigits(IntText(i)) by { assert !IsDigit(IntText(i)[0]); }
      DecimalValue(-i);
    } else {
      DecimalValue(i);
    }
  }

  /** The length of the run of digits at the front of s. */
  function DigitRun(s: string): (n: nat)
    ensures n <= |s|
    ensures forall j :: 0 <= j < n ==> IsDigit(s[j])
    ensures n < |s| ==> !IsDigit(s[n])
  {
    if |s| > 0 && IsDigit(s[0]) then 1 + DigitRun(s[1..]) else 0
  }

  /**
   * std::stoi: leading whitespace skipped, an optional sign, then the
   * longest run of digits; with no digit it throws (Err).
   */
  function Stoi(s: string): (r: Result<int>)
    ensures var t := s[SpaceRun(s)..];
            r.Ok? <==> (|t| > 0 && IsDigit(t[0])) || (|t| > 1 && (t[0] == '-' || t[0] == '+') && IsDigit(t[1]))
    ensures ParseInt(s).Some? ==> r == Ok(ParseInt(s).value)
  {
    var t := s[SpaceRun(s)..];
    if ParseInt(s).Some? then
      assert SpaceRun(s) == 0 && t == s by { assert !IsSpace(s[0]); }
      var u := if |t| > 0 && (t[0] == '-' || t[0] == '+') then t[1..] else t;
      assert DigitRun(u) == |u| && u[..|u|] == u;
      StoiUnblanked(t)
    else StoiUnblanked(t)
  }

  /** std::stoi once the leading whitespace is gone. */
  function StoiUnblanked(t: string): (r: Result<int>)
  {
    var negative := |t| > 0 && t[0] == '-';
    var u := if |t| > 0 && (t[0] == '-' || t[0] == '+') then t[1..] else t;
    var k := DigitRun(u);
    if k == 0 then Err("stoi: no conversion")
    else
      var v: int := DigitsValue(u[..k]);
      Ok(if negative then -v else v)
  }

  // ------------------------------------------------------- substr and setw

  function Spaces(n: nat): (r: string)
    ensures |r| == n && forall j :: 0 <= j < n ==> r[j] == ' '
  {
    seq(n, _ => ' ')
  }

  /** std::setw(w) << std::right: spaces in front up to width w; a longer text is written whole. */
  function PadLeft(s: string, w: nat): (r: string)
    ensures |r| == if |s| < w then w else |s|
    ensures r[|r| - |s|..] == s
  {
    if |s| < w then Spaces(w - |s|) + s else s
  }

  /** std::setw(w) << std::left: spaces behind up to width w; a longer text is written whole. */
  function PadRight(s: string, w: nat): (r: string)
    ensures |r| == if |s| < w then w else |s|
    ensures r[..|s|] == s
  {
    if |s| < w then s + Spaces(w - |s|) else s
  }

  /** std::string::substr(pos, n): at most n characters from pos; a pos past the end throws (Err). */
  function Substr(s: string, pos: nat, n: nat): (r: Result<string>)
    ensures r.Ok? <==> pos <= |s|
    ensures r.Ok? ==> r.value == s[pos..if pos + n <= |s| then pos + n else |s|]
  {
    if pos > |s| then Err("substr: position out of range")
    else if pos + n <= |s| then Ok(s[pos..pos + n]) else Ok(s[pos..])
  }

  /** The text with every whitespace character removed (remove_if with isspace, then erase). */
  function RemoveSpaces(s: string): (r: string)
    ensures forall j :: 0 <= j < |r| ==> !IsSpace(r[j])
  {
    if |s| == 0 then []
    else if IsSpace(s[|s| - 1]) then RemoveSpaces(s[..|s| - 1])
    else RemoveSpaces(s[..|s| - 1]) + [s[|s| - 1]]
  }

  lemma {:induction false} RemoveSpacesAppend(a: string, b: string)
    ensures RemoveSpaces(a + b) == RemoveSpaces(a) + RemoveSpaces(b)
    decreases |b|
  {
    if |b| == 0 {
      assert a + b == a;
    } else {
      assert (a + b)[..|a + b| - 1] == a + b[..|b| - 1];
      RemoveSpacesAppend(a, b[..|b| - 1]);
    }
  }

  lemma {:induction false} RemoveSpacesOfSpaces(n: nat)
    ensures RemoveSpaces(Spaces(n)) == []
    decreases n
  {
    if n > 0 {
      assert Spaces(n)[..n - 1] == Spaces(n - 1);
      RemoveSpacesOfSpaces(n - 1);
    }
  }

  lemma {:induction false} RemoveSpacesOfWord(w: string)
    requires forall j :: 0 <= j < |w| ==> !IsSpace(w[j])
    ensures RemoveSpaces(w) == w
    decreases |w|
  {
    if |w| > 0 {
      RemoveSpacesOfWord(w[..|w| - 1]);
    }
  }

  /** A text without whitespace, right-aligned, is recovered by removing the whitespace. */
  lemma PadLeftRecovered(w: string, width: nat)
    requires forall j :: 0 <= j < |w| ==> !IsSpace(w[j])
    ensures RemoveSpaces(PadLeft(w, width)) == w
  {
    RemoveSpacesOfWord(w);
    if |w| < width {
      var n := width - |w|;
      RemoveSpacesAppend(Spaces(n), w);
      RemoveSpacesOfSpaces(n);
      assert RemoveSpaces(Spaces(n) + w) == [] + w;
    }
  }

  /** A text without whitespace, left-aligned, is recovered by removing the whitespace. */
  lemma PadRightRecovered(w: string, width: nat)
    requires forall j :: 0 <= j < |w| ==> !IsSpace(w[j])
    ensures RemoveSpaces(PadRight(w, width)) == w
  {
    RemoveSpacesOfWord(w);
    if |w| < width {
      var n := width - |w|;
      RemoveSpacesAppend(w, Spaces(n));
      RemoveSpacesOfSpaces(n);
      assert RemoveSpaces(w + Spaces(n)) == w + [];
    }
  }

  /** What operator<< writes for an int, right-aligned in any width, std::stoi reads back. */
  lemma StoiPadded(i: int, width: nat)
    ensures Stoi(PadLeft(IntText(i), width)) == Ok(i)
  {
    var text := IntText(i);
    var pad := if |text| < width then width - |text| else 0;
    assert PadLeft(text, width) == Spaces(pad) + text;
    StoiSkipsSpaces(pad, text);
    StoiIntText(i);
  }

  /** Leading blanks do not change what std::stoi reads. */
  lemma StoiSkipsSpaces(pad: nat, text: string)
    requires |text| > 0 && !IsSpace(text[0])
    ensures Stoi(Spaces(pad) + text) == Stoi(text)
  {
    SpaceRunOfPad(pad, text);
    assert (Spaces(pad) + text)[pad..] == text;
    assert SpaceRun(text) == 0;
    assert text[0..] == text;
  }

  /** std::stoi reads back the unpadded text of any int. */
  lemma StoiIntText(i: int)
    ensures Stoi(IntText(i)) == Ok(i)
  {
    var text := IntText(i);
    assert SpaceRun(text) == 0;
    assert text[0..] == text;
    var d := if i < 0 then -i else i;
    var digits := Decimal(d);
    var u := if i < 0 then text[1..] else text;
    assert u == digits;
    DigitRunAll(digits);
    assert digits[..|digits|] == digits;
    DecimalValue(d);
  }

  lemma {:induction false} SpaceRunOfPad(n: nat, text: string)
    requires |text| > 0 && !IsSpace(text[0])
    ensures SpaceRun(Spaces(n) + text) == n
    decreases n
  {
    if n > 0 {
      assert (Spaces(n) + text)[1..] == Spaces(n - 1) + text;
      SpaceRunOfPad(n - 1, text);
    } else {
      assert Spaces(0) + text == text;
    }
  }

  lemma {:induction false} DigitRunAll(w: string)
    requires forall j :: 0 <= j < |w| ==> IsDigit(w[j])
    ensures DigitRun(w) == |w|
    decreases |w|
  {
    if |w| > 0 {
      DigitRunAll(w[1..]);
    }
  }

  // ----------------------------------------------------------- field stream

  /**
   * A std::stringstream over one line: the words not yet extracted and the
   * fail flag. Once an extraction fails, every later one fails too and leaves
   * its target unchanged.
   */
  datatype FieldStream = FieldStream(words: seq<string>, failed: bool)

  function LineStream(line: string): FieldStream
  {
    FieldStream(Words(line), false)
  }

  /** operator>> into a string: the next word, or the target unchanged on a failed or exhausted stream. */
  function ReadWord(st: FieldStream, v: string): (r: (FieldStream, string))
    ensures !st.failed && |st.words| > 0 ==> r == (st.(words := st.words[1..]), st.words[0])
    ensures st.failed || |st.words| == 0 ==> r.0.failed && r.1 == v
  {
    if st.failed || |st.words| == 0 then (st.(failed := true), v)
    else (st.(words := st.words[1..]), st.words[0])
  }

  /** operator>> into an int: a word that is not a number fails and stores 0. */
  function ReadInt(st: FieldStream, v: int): (r: (FieldStream, int))
    ensures !st.failed && |st.words| > 0 && ParseInt(st.words[0]).Some? ==>
              r == (st.(words := st.words[1..]), ParseInt(st.words[0]).value)
    ensures r.0.failed ==> r.1 == v || r.1 == 0
  {
    if st.failed || |st.words| == 0 then (st.(failed := true), v)
    else match ParseInt(st.words[0])
      case Some(n) => (st.(words := st.words[1..]), n)
      case None => (st.(failed := true), 0)
  }

  /** operator>> into a std::size_t: as for an int, with a negative literal wrapped modulo 2^64. */
  function ReadSize(st: FieldStream, v: nat): (r: (FieldStream, nat))
    ensures r.1 == v || r.1 == 0 || (!st.failed && |st.words| > 0 && ParseInt(st.words[0]).Some?
                                     && r.1 == ToSizeT(ParseInt(st.words[0]).value))
  {
    if st.failed || |st.words| == 0 then (st.(failed := true), v)
    else match ParseInt(st.words[0])
      case Some(n) => (st.(words := st.words[1..]), ToSizeT(n))
      case None => (st.(failed := true), 0)
  }

  /** operator>> into a REAL: toReal converts a word, None for a word that is not a number, which stores 0. */
  function ReadReal(st: FieldStream, v: real, toReal: string -> Option<real>): (r: (FieldStream, real))
    ensures !st.failed && |st.words| > 0 && toReal(st.words[0]).Some? ==>
              r == (st.(words := st.words[1..]), toReal(st.words[0]).value)
  {
    if st.failed || |st.words| == 0 then (st.(failed := true), v)
    else match toReal(st.words[0])
      case Some(x) => (st.(words := st.words[1..]), x)
      case None => (st.(failed := true), 0.0)
  }
}
