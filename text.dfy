/** The string operations the notebook applies through pandas' `.str`
    accessor: `split(',')`, taking the last piece, and `strip()`. */
module Text {

  /** Python's `str.isspace()`: the characters `strip()` removes and the
      regular-expression class `\s` matches. */
  predicate IsSpace(c: char) {
    || c == ' '
    || ('\t' <= c <= '\r')
    || ('\U{1c}' <= c <= '\U{1f}')
    || c == '\U{85}' || c == '\U{a0}' || c == '\U{1680}'
    || ('\U{2000}' <= c <= '\U{200a}')
    || c == '\U{2028}' || c == '\U{2029}' || c == '\U{202f}'
    || c == '\U{205f}' || c == '\U{3000}'
  }

  /** Removes leading whitespace (`str.lstrip()`). */
  function StripLeft(s: string): (r: string)
    ensures |r| <= |s| && r == s[|s| - |r|..]
    ensures forall i :: 0 <= i < |s| - |r| ==> IsSpace(s[i])
    ensures r == [] || !IsSpace(r[0])
  {
    if s != [] && IsSpace(s[0]) then StripLeft(s[1..]) else s
  }

  /** Removes trailing whitespace (`str.rstrip()`). */
  function StripRight(s: string): (r: string)
    ensures |r| <= |s| && r == s[..|r|]
    ensures forall i :: |r| <= i < |s| ==> IsSpace(s[i])
    ensures r == [] || !IsSpace(r[|r| - 1])
  {
    if s != [] && IsSpace(s[|s| - 1]) then StripRight(s[..|s| - 1]) else s
  }

  /** `str.strip()`: both ends. */
  function Strip(s: string): string {
    StripRight(StripLeft(s))
  }

  /** What `strip()` promises: the result is the slice of `s` between a
      whitespace-only prefix and a whitespace-only suffix. */
  lemma StripIsTrimmedSlice(s: string)
    ensures exists i, j ::
              && 0 <= i <= j <= |s| && Strip(s) == s[i..j]
              && (forall k :: 0 <= k < i ==> IsSpace(s[k]))
              && (forall k :: j <= k < |s| ==> IsSpace(s[k]))
  {
    var l := StripLeft(s);
    var r := StripRight(l);
    var i := |s| - |l|;
    var j := i + |r|;
    assert Strip(s) == s[i..j] by {
      assert l == s[i..] && r == l[..|r|];
      assert s[i..][..|r|] == s[i..j];
    }
    forall k | j <= k < |s| ensures IsSpace(s[k]) {
      assert s[k] == l[k - i];
    }
  }

  /** ... and it neither starts nor ends with whitespace. */
  lemma StripEnds(s: string)
    ensures Strip(s) == [] || (!IsSpace(Strip(s)[0]) && !IsSpace(Strip(s)[|Strip(s)| - 1]))
  {
    var l := StripLeft(s);
    var r := StripRight(l);
    if r != [] {
      assert r[0] == l[0];
    }
  }

  /** Stripping twice is stripping once. */
  lemma StripIdempotent(s: string)
    ensures Strip(Strip(s)) == Strip(s)
  {
    var t := Strip(s);
    StripEnds(s);
    if t != [] {
      assert StripLeft(t) == t;
      assert StripRight(t) == t;
    }
  }

  /** A text that neither starts nor ends with whitespace is left as it is. */
  lemma StripUnpadded(s: string)
    requires s == [] || (!IsSpace(s[0]) && !IsSpace(s[|s| - 1]))
    ensures Strip(s) == s
  {
    assert StripLeft(s) == s;
  }

  /** Stripping only removes characters. */
  lemma StripKeepsAbsent(s: string, c: char)
    requires c !in s
    ensures c !in Strip(s)
  {
    var l := StripLeft(s);
    assert c !in l by {
      forall k | 0 <= k < |l| ensures l[k] != c {
        assert l[k] == s[|s| - |l| + k];
      }
    }
    var r := StripRight(l);
    forall k | 0 <= k < |r| ensures r[k] != c {
      assert r[k] == l[k];
    }
  }

  /** `str.split(sep)`: the pieces between separators, always at least one. */
  function Split(s: string, sep: char): (parts: seq<string>)
    ensures |parts| >= 1
    ensures forall i :: 0 <= i < |parts| ==> sep !in parts[i]
    ensures Join(parts, sep) == s
  {
    if s == [] then [[]]
    else
      var rest := Split(s[1..], sep);
      if s[0] == sep then [[]] + rest
      else [[s[0]] + rest[0]] + rest[1..]
  }

  /** `sep.join(parts)`, the inverse of `Split`. */
  function Join(parts: seq<string>, sep: char): string
    requires |parts| >= 1
  {
    if |parts| == 1 then parts[0] else parts[0] + [sep] + Join(parts[1..], sep)
  }

  /** `s.split(sep)[-1]`. */
  function LastPiece(s: string, sep: char): string {
    var parts := Split(s, sep);
    parts[|parts| - 1]
  }

  /** The last piece is everything after the last separator, or the whole
      string when there is none. */
  lemma {:induction false} LastPieceIsTail(s: string, sep: char)
    ensures sep !in s ==> LastPiece(s, sep) == s
    ensures sep in s ==> exists k :: 0 <= k < |s| && s[k] == sep && LastPiece(s, sep) == s[k + 1..]
    ensures sep !in LastPiece(s, sep)
  {
    if s != [] {
      var rest := Split(s[1..], sep);
      LastPieceIsTail(s[1..], sep);
      SplitSingleton(s[1..], sep);
      if |rest| > 1 {
        assert LastPiece(s, sep) == LastPiece(s[1..], sep);
        var k :| 0 <= k < |s[1..]| && s[1..][k] == sep && LastPiece(s[1..], sep) == s[1..][k + 1..];
        assert s[k + 1] == sep && s[k + 2..] == s[1..][k + 1..];
      } else if s[0] == sep {
        assert LastPiece(s, sep) == rest[0] == s[1..];
      } else {
        assert LastPiece(s, sep) == [s[0]] + rest[0] == s;
      }
    }
  }

  /** A string splits into a single piece exactly when it has no separator. */
  lemma {:induction false} SplitSingleton(s: string, sep: char)
    ensures (|Split(s, sep)| == 1) == (sep !in s)
  {
    var parts := Split(s, sep);
    if |parts| == 1 {
      assert Join(parts, sep) == parts[0];
    } else if s != [] {
      SplitSingleton(s[1..], sep);
    }
  }
}
