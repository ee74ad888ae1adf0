/** The two functions of Go's `strings` package that the link-file reader
    relies on: `Split` on a one-character separator and `TrimSpace`. The
    Unicode whitespace class of `TrimSpace` is a parameter, `space`. */
module GoStrings {

  /** Position of the first occurrence of `c` in `s`. */
  function IndexOf(s: string, c: char): (i: nat)
    requires c in s
    ensures i < |s| && s[i] == c
    ensures forall j :: 0 <= j < i ==> s[j] != c
  {
    if s[0] == c then 0 else 1 + IndexOf(s[1..], c)
  }

  lemma FirstOccurrence(s: string, c: char, k: nat)
    requires k < |s| && s[k] == c
    requires forall j :: 0 <= j < k ==> s[j] != c
    ensures IndexOf(s, c) == k
  {
  }

  /** `strings.Split(s, sep)`: the pieces between separators; n
      separators give n + 1 pieces, and the empty string gives one empty
      piece. */
  function Split(s: string, sep: char): (pieces: seq<string>)
    ensures |pieces| >= 1
    ensures forall i :: 0 <= i < |pieces| ==> sep !in pieces[i]
    decreases |s|
  {
    if sep !in s then [s]
    else
      var i := IndexOf(s, sep);
      [s[..i]] + Split(s[i + 1..], sep)
  }

  /** `strings.Join(pieces, sep)`, the inverse of Split. */
  function Join(pieces: seq<string>, sep: char): string
    requires |pieces| >= 1
    decreases |pieces|
  {
    if |pieces| == 1 then pieces[0] else pieces[0] + [sep] + Join(pieces[1..], sep)
  }

  /** Splitting loses nothing: joining the pieces gives back the input. */
  lemma {:induction false} JoinSplit(s: string, sep: char)
    ensures Join(Split(s, sep), sep) == s
    decreases |s|
  {
    if sep in s {
      var i := IndexOf(s, sep);
      JoinSplit(s[i + 1..], sep);
      var pieces := Split(s, sep);
      assert pieces[1..] == Split(s[i + 1..], sep);
      assert s == s[..i] + [sep] + s[i + 1..];
    }
  }

  /** Pieces free of the separator are exactly what Split recovers. */
  lemma {:induction false} SplitJoin(pieces: seq<string>, sep: char)
    requires |pieces| >= 1
    requires forall i :: 0 <= i < |pieces| ==> sep !in pieces[i]
    ensures Split(Join(pieces, sep), sep) == pieces
    decreases |pieces|
  {
    if |pieces| > 1 {
      var s := Join(pieces, sep);
      var k := |pieces[0]|;
      assert s[k] == sep;
      assert s[..k] == pieces[0];
      FirstOccurrence(s, sep, k);
      assert s[k + 1..] == Join(pieces[1..], sep);
      SplitJoin(pieces[1..], sep);
    }
  }

  /** Length of the run of `space` characters at the front of `s`. */
  function LeadingSpace(s: string, space: char -> bool): (n: nat)
    ensures n <= |s|
    ensures forall i :: 0 <= i < n ==> space(s[i])
    ensures n < |s| ==> !space(s[n])
    decreases |s|
  {
    if 0 < |s| && space(s[0]) then 1 + LeadingSpace(s[1..], space) else 0
  }

  /** Length of the run of `space` characters at the back of `s`. */
  function TrailingSpace(s: string, space: char -> bool): (n: nat)
    ensures n <= |s|
    ensures forall i :: |s| - n <= i < |s| ==> space(s[i])
    ensures n < |s| ==> !space(s[|s| - n - 1])
    decreases |s|
  {
    if 0 < |s| && space(s[|s| - 1]) then 1 + TrailingSpace(s[..|s| - 1], space) else 0
  }

  /** The trailing run of a suffix `s[a..]`, read in `s`'s own indices. */
  lemma TrailingSpaceOfSuffix(s: string, a: nat, space: char -> bool)
    requires a <= |s|
    ensures var n := TrailingSpace(s[a..], space);
      && n <= |s| - a
      && (forall i :: |s| - n <= i < |s| ==> space(s[i]))
      && (n < |s| - a ==> !space(s[|s| - n - 1]))
  {
    var rest := s[a..];
    var n := TrailingSpace(rest, space);
    forall i | |s| - n <= i < |s|
      ensures space(s[i])
    {
      assert s[i] == rest[i - a];
    }
    if n < |rest| {
      assert s[|s| - n - 1] == rest[|rest| - n - 1];
    }
  }

  /** The bounds `TrimSpace` cuts at: everything outside `[a, b)` is
      whitespace, and the kept part neither starts nor ends with it. */
  function TrimBounds(s: string, space: char -> bool): (ab: (nat, nat))
    ensures ab.0 <= ab.1 <= |s|
    ensures forall i :: 0 <= i < ab.0 ==> space(s[i])
    ensures forall i :: ab.1 <= i < |s| ==> space(s[i])
    ensures ab.0 < ab.1 ==> !space(s[ab.0]) && !space(s[ab.1 - 1])
    ensures ab.0 == ab.1 ==> ab.1 == |s|
  {
    var a := LeadingSpace(s, space);
    var n := TrailingSpace(s[a..], space);
    TrailingSpaceOfSuffix(s, a, space);
    var b := |s| - n;
    (a, b)
  }

  /** `strings.TrimSpace`: the input with leading and trailing whitespace cut. */
  function TrimSpace(s: string, space: char -> bool): (t: string)
    ensures |t| == TrimBounds(s, space).1 - TrimBounds(s, space).0
    ensures 0 < |t| ==> !space(t[0]) && !space(t[|t| - 1])
    ensures forall i :: 0 <= i < |t| ==> t[i] == s[TrimBounds(s, space).0 + i]
  {
    var ab := TrimBounds(s, space);
    s[ab.0..ab.1]
  }

  /** Trimming twice is trimming once. */
  lemma TrimSpaceIdempotent(s: string, space: char -> bool)
    ensures TrimSpace(TrimSpace(s, space), space) == TrimSpace(s, space)
  {
    var t := TrimSpace(s, space);
    var ab := TrimBounds(t, space);
    if 0 < |t| {
      assert ab.0 == 0;
      assert ab.1 == |t|;
    }
  }
}
