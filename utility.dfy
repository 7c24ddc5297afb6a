// enhance::trimString and enhance::splitString, with the string searches the
// parsers use (std::string::find for a character and for a substring).
module Utility {

  import opened Wrappers

  // std::isspace in the "C" locale.
  predicate IsSpace(c: char) {
    c == ' ' || c == '\t' || c == '\n' || c == '\U{B}' || c == '\U{C}' || c == '\r'
  }

  predicate NoEdgeSpace(s: string) {
    s == [] || (!IsSpace(s[0]) && !IsSpace(s[|s| - 1]))
  }

  // ---------------------------------------------------------------- trimString

  /** Drops the whitespace at the front (the first loop of trimString). */
  function TrimLeft(s: string): string
  {
    if |s| > 0 && IsSpace(s[0]) then TrimLeft(s[1..]) else s
  }

  /** Drops the whitespace at the back (the second loop of trimString). */
  function TrimRight(s: string): string
  {
    if |s| > 0 && IsSpace(s[|s| - 1]) then TrimRight(s[..|s| - 1]) else s
  }

  /** The value trimString returns. */
  function Trimmed(s: string): string
  {
    TrimRight(TrimLeft(s))
  }

  /** Number of whitespace characters the first loop of trimString skips. */
  function LeadCount(s: string): (n: nat)
    ensures n <= |s|
  {
    if |s| > 0 && IsSpace(s[0]) then 1 + LeadCount(s[1..]) else 0
  }

  /** Number of whitespace characters the second loop of trimString skips. */
  function TrailCount(s: string): (n: nat)
    ensures n <= |s|
  {
    if |s| > 0 && IsSpace(s[|s| - 1]) then 1 + TrailCount(s[..|s| - 1]) else 0
  }

  lemma {:induction false} TrimLeftIsSuffix(s: string)
    ensures TrimLeft(s) == s[LeadCount(s)..]
    ensures forall k :: 0 <= k < LeadCount(s) ==> IsSpace(s[k])
    ensures TrimLeft(s) == [] || !IsSpace(TrimLeft(s)[0])
  {
    if |s| > 0 && IsSpace(s[0]) {
      TrimLeftIsSuffix(s[1..]);
      assert s[1..][LeadCount(s[1..])..] == s[LeadCount(s)..];
      forall k | 0 <= k < LeadCount(s) ensures IsSpace(s[k]) {
        if k > 0 { assert s[k] == s[1..][k - 1]; }
      }
    }
  }

  lemma {:induction false} TrimRightIsPrefix(s: string)
    ensures TrimRight(s) == s[..|s| - TrailCount(s)]
    ensures forall k :: |s| - TrailCount(s) <= k < |s| ==> IsSpace(s[k])
    ensures TrimRight(s) == [] || !IsSpace(TrimRight(s)[|TrimRight(s)| - 1])
  {
    if |s| > 0 && IsSpace(s[|s| - 1]) {
      var t := s[..|s| - 1];
      TrimRightIsPrefix(t);
      assert t[..|t| - TrailCount(t)] == s[..|s| - TrailCount(s)];
      forall k | |s| - TrailCount(s) <= k < |s| ensures IsSpace(s[k]) {
        if k < |t| { assert s[k] == t[k]; }
      }
    }
  }

  /** A prefix of a string without leading whitespace keeps its first character. */
  lemma {:induction false} TrimRightKeepsFront(s: string)
    requires s == [] || !IsSpace(s[0])
    ensures s != [] ==> TrimRight(s) != [] && TrimRight(s)[0] == s[0]
  {
    TrimRightIsPrefix(s);
  }

  /** trimString returns a contiguous piece of its input with no whitespace at either end. */
  lemma {:induction false} TrimmedShape(s: string)
    ensures NoEdgeSpace(Trimmed(s))
    ensures Trimmed(s) == s[LeadCount(s)..|s| - TrailCount(s[LeadCount(s)..])]
  {
    TrimLeftIsSuffix(s);
    var t := TrimLeft(s);
    TrimRightIsPrefix(t);
    TrimRightKeepsFront(t);
    assert t[..|t| - TrailCount(t)] == s[LeadCount(s)..|s| - TrailCount(t)];
  }

  lemma {:induction false} TrimLeftFixed(s: string)
    requires s == [] || !IsSpace(s[0])
    ensures TrimLeft(s) == s
  {
  }

  lemma {:induction false} TrimRightFixed(s: string)
    requires s == [] || !IsSpace(s[|s| - 1])
    ensures TrimRight(s) == s
  {
  }

  /** trimString is idempotent. */
  lemma {:induction false} TrimIdempotent(s: string)
    ensures Trimmed(Trimmed(s)) == Trimmed(s)
  {
    var r := Trimmed(s);
    TrimmedShape(s);
    TrimLeftFixed(r);
    TrimRightFixed(r);
  }

  lemma {:induction false} TrimLeftAllSpace(s: string)
    ensures TrimLeft(s) == [] <==> forall k :: 0 <= k < |s| ==> IsSpace(s[k])
  {
    if |s| > 0 && IsSpace(s[0]) {
      TrimLeftAllSpace(s[1..]);
      assert (forall k :: 0 <= k < |s| ==> IsSpace(s[k])) <==> (forall k :: 0 <= k < |s[1..]| ==> IsSpace(s[1..][k])) by {
        if forall k :: 0 <= k < |s[1..]| ==> IsSpace(s[1..][k]) {
          forall k | 0 <= k < |s| ensures IsSpace(s[k]) {
            if k > 0 { assert s[k] == s[1..][k - 1]; }
          }
        }
      }
    }
  }

  /** trimString yields the empty string exactly for all-whitespace input. */
  lemma {:induction false} TrimEmptyIffAllSpace(s: string)
    ensures Trimmed(s) == [] <==> forall k :: 0 <= k < |s| ==> IsSpace(s[k])
  {
    TrimLeftAllSpace(s);
    var t := TrimLeft(s);
    TrimLeftIsSuffix(s);
    TrimRightKeepsFront(t);
  }

  lemma {:induction false} TrimLeftStep(s: string, i: nat)
    requires i < |s| && IsSpace(s[i])
    ensures TrimLeft(s[i..]) == TrimLeft(s[i + 1..])
  {
    assert s[i..][1..] == s[i + 1..];
  }

  lemma {:induction false} TrimRightStep(s: string, i: nat, j: nat)
    requires i < j <= |s| && IsSpace(s[j - 1])
    ensures TrimRight(s[i..j]) == TrimRight(s[i..j - 1])
  {
    assert s[i..j][..j - i - 1] == s[i..j - 1];
  }

  /** enhance::trimString: two iterators move inwards past whitespace. */
  method TrimString(input: string) returns (output: string)
    ensures output == Trimmed(input)
    ensures NoEdgeSpace(output)
    ensures exists i, j :: 0 <= i <= j <= |input| && output == input[i..j]
  {
    var start, end := 0, |input|;
    while start != end && IsSpace(input[start])
      invariant 0 <= start <= end == |input|
      invariant TrimLeft(input[start..]) == TrimLeft(input)
    {
      TrimLeftStep(input, start);
      start := start + 1;
    }
    assert TrimLeft(input) == input[start..] == input[start..end];
    while start != end && IsSpace(input[end - 1])
      invariant start <= end <= |input|
      invariant TrimRight(input[start..end]) == Trimmed(input)
    {
      TrimRightStep(input, start, end);
      end := end - 1;
    }
    output := input[start..end];
    TrimmedShape(input);
    assert output == input[LeadCount(input)..|input| - TrailCount(input[LeadCount(input)..])];
  }

  // --------------------------------------------------------------- splitString

  /** Position of the first c in s, or |s| when there is none. */
  function FirstIndexOf(s: string, c: char): (k: nat)
    ensures k <= |s|
    ensures k < |s| ==> s[k] == c
    ensures forall j :: 0 <= j < k ==> s[j] != c
  {
    if |s| == 0 then 0
    else if s[0] == c then 0
    else 1 + FirstIndexOf(s[1..], c)
  }

  /** std::string::find(c, from). */
  function Find(s: string, c: char, from: nat): (r: Option<nat>)
    ensures r.Some? ==> from <= r.value < |s| && s[r.value] == c
    ensures r.Some? ==> forall j :: from <= j < r.value ==> s[j] != c
    ensures r.None? ==> forall j :: from <= j < |s| ==> s[j] != c
  {
    if from >= |s| then None
    else
      var k := FirstIndexOf(s[from..], c);
      if k == |s| - from then None
      else
        assert forall j :: from <= j < from + k ==> s[j] == s[from..][j - from];
        Some(from + k)
  }

  /** The pieces of s between the occurrences of d. */
  function Split(s: string, d: char): seq<string>
    decreases |s|
  {
    var k := FirstIndexOf(s, d);
    if k == |s| then [s] else [s[..k]] + Split(s[k + 1..], d)
  }

  /** The pieces concatenated with d between them. */
  function Join(pieces: seq<string>, d: char): string
  {
    if |pieces| == 0 then []
    else if |pieces| == 1 then pieces[0]
    else pieces[0] + [d] + Join(pieces[1..], d)
  }

  function Occurrences(s: string, d: char): nat
  {
    if |s| == 0 then 0 else (if s[0] == d then 1 else 0) + Occurrences(s[1..], d)
  }

  lemma {:induction false} OccurrencesAppend(a: string, b: string, d: char)
    ensures Occurrences(a + b, d) == Occurrences(a, d) + Occurrences(b, d)
  {
    if |a| > 0 {
      assert (a + b)[1..] == a[1..] + b;
      OccurrencesAppend(a[1..], b, d);
    } else {
      assert a + b == b;
    }
  }

  lemma {:induction false} OccurrencesNone(s: string, d: char)
    requires forall j :: 0 <= j < |s| ==> s[j] != d
    ensures Occurrences(s, d) == 0
  {
    if |s| > 0 { OccurrencesNone(s[1..], d); }
  }

  /** Joining the pieces of splitString with the delimiter gives back the input. */
  lemma {:induction false} JoinSplit(s: string, d: char)
    ensures Join(Split(s, d), d) == s
    decreases |s|
  {
    var k := FirstIndexOf(s, d);
    if k < |s| {
      var rest := s[k + 1..];
      JoinSplit(rest, d);
      var tail := Split(rest, d);
      assert |tail| >= 1 by { SplitShape(rest, d); }
      assert Split(s, d) == [s[..k]] + tail;
      assert (([s[..k]] + tail)[1..]) == tail;
      assert s == s[..k] + [d] + rest;
    }
  }

  /** splitString yields one piece more than there are delimiters, none containing it. */
  lemma {:induction false} SplitShape(s: string, d: char)
    ensures |Split(s, d)| == Occurrences(s, d) + 1
    ensures forall p :: p in Split(s, d) ==> d !in p
    decreases |s|
  {
    var k := FirstIndexOf(s, d);
    if k == |s| {
      OccurrencesNone(s, d);
    } else {
      var rest := s[k + 1..];
      SplitShape(rest, d);
      assert s == s[..k] + ([d] + rest);
      OccurrencesAppend(s[..k], [d] + rest, d);
      OccurrencesNone(s[..k], d);
      assert ([d] + rest)[1..] == rest;
    }
  }

  /** The empty input yields one empty piece. */
  lemma SplitEmpty(d: char)
    ensures Split([], d) == [[]]
  {
  }

  lemma {:induction false} SplitStep(s: string, d: char, cur: nat, n: nat)
    requires cur <= n < |s| && s[n] == d
    requires forall j :: cur <= j < n ==> s[j] != d
    ensures Split(s[cur..], d) == [s[cur..n]] + Split(s[n + 1..], d)
  {
    var rest := s[cur..];
    var k := FirstIndexOf(rest, d);
    assert rest[n - cur] == d;
    assert k == n - cur;
    assert rest[..k] == s[cur..n];
    assert rest[k + 1..] == s[n + 1..];
  }

  lemma {:induction false} SplitLast(s: string, d: char, cur: nat)
    requires cur <= |s|
    requires forall j :: cur <= j < |s| ==> s[j] != d
    ensures Split(s[cur..], d) == [s[cur..]]
  {
    var rest := s[cur..];
    var k := FirstIndexOf(rest, d);
  }

  /** enhance::splitString: the do-while loop over currentPosition/nextDelimiter. */
  method SplitString(input: string, delimiter: char) returns (output: seq<string>)
    ensures output == Split(input, delimiter)
    ensures |output| == Occurrences(input, delimiter) + 1
  {
    output := [];
    var length := |input|;
    var currentPosition := 0;
    var running := true;
    assert input[currentPosition..] == input;
    while running
      invariant currentPosition <= length
      invariant running ==> output + Split(input[currentPosition..], delimiter) == Split(input, delimiter)
      invariant !running ==> output == Split(input, delimiter)
      decreases length - currentPosition + (if running then 1 else 0)
    {
      var nextDelimiter := Find(input, delimiter, currentPosition);
      match nextDelimiter {
        case None =>
          SplitLast(input, delimiter, currentPosition);
          assert output + [input[currentPosition..]] == output + Split(input[currentPosition..], delimiter);
          output := output + [input[currentPosition..]];
          currentPosition := length;
          running := false;
        case Some(n) =>
          SplitStep(input, delimiter, currentPosition, n);
          assert output + Split(input[currentPosition..], delimiter)
              == (output + [input[currentPosition..n]]) + Split(input[n + 1..], delimiter);
          output := output + [input[currentPosition..n]];
          currentPosition := n + 1;
          running := true;
      }
    }
    SplitShape(input, delimiter);
  }

  // ------------------------------------------------------------ substring find

  /** std::string::find(t) != npos. */
  predicate HasSubstring(s: string, t: string)
    decreases |s|
  {
    t <= s || (|s| > 0 && HasSubstring(s[1..], t))
  }

  predicate OccursAt(s: string, t: string, i: nat)
  {
    i + |t| <= |s| && s[i..i + |t|] == t
  }

  lemma {:induction false} HasSubstringAt(s: string, t: string, i: nat)
    requires OccursAt(s, t, i)
    ensures HasSubstring(s, t)
    decreases i
  {
    if i > 0 {
      assert s[1..][i - 1..i - 1 + |t|] == s[i..i + |t|];
      HasSubstringAt(s[1..], t, i - 1);
    } else {
      assert t <= s;
    }
  }

  /** The substring test holds iff t occurs at some position of s. */
  lemma {:induction false} HasSubstringIff(s: string, t: string)
    ensures HasSubstring(s, t) <==> exists i: nat :: OccursAt(s, t, i)
    decreases |s|
  {
    if exists i: nat :: OccursAt(s, t, i) {
      var i: nat :| OccursAt(s, t, i);
      HasSubstringAt(s, t, i);
    }
    if HasSubstring(s, t) {
      if t <= s {
        assert OccursAt(s, t, 0);
      } else {
        HasSubstringIff(s[1..], t);
        var i: nat :| OccursAt(s[1..], t, i);
        assert s[1..][i..i + |t|] == s[i + 1..i + 1 + |t|];
        assert OccursAt(s, t, i + 1);
      }
    }
  }

  /** std::string::find(c) != npos. */
  predicate HasChar(s: string, c: char) { c in s }

}
