/** The JavaScript string built-ins the extension relies on, stated over
    `seq<char>`: `startsWith`, `includes`, `split` with a non-empty separator,
    `trim`, the one regular-expression shape the extension uses
    (`/<marker>([^\/]+)/`, the first capture group), and the decimal rendering
    of an integer that string concatenation performs. */
module JsStrings {
  import opened Wrappers

  // ---------------------------------------------------------------------
  // startsWith / includes

  /** `s.startsWith(p)`. */
  predicate StartsWith(s: string, p: string) {
    |p| <= |s| && s[..|p|] == p
  }

  /** `s.endsWith(p)`. */
  predicate EndsWith(s: string, p: string) {
    |p| <= |s| && s[|s| - |p|..] == p
  }

  /** `p` occurs in `s` at position `i`. */
  predicate OccursAt(s: string, p: string, i: int) {
    0 <= i && i + |p| <= |s| && s[i..i + |p|] == p
  }

  /** `s.includes(p)`: decided by scanning left to right. */
  function Includes(s: string, p: string): (r: bool)
    ensures r <==> exists i :: OccursAt(s, p, i)
    decreases |s|
  {
    if StartsWith(s, p) then
      assert OccursAt(s, p, 0);
      true
    else if s == [] then
      false
    else
      var r := Includes(s[1..], p);
      assert r ==> exists i :: OccursAt(s, p, i) by {
        if r {
          var i :| OccursAt(s[1..], p, i);
          assert s[i + 1..i + 1 + |p|] == s[1..][i..i + |p|];
          assert OccursAt(s, p, i + 1);
        }
      }
      assert (exists i :: OccursAt(s, p, i)) ==> r by {
        if exists i :: OccursAt(s, p, i) {
          var i :| OccursAt(s, p, i);
          assert s[1..][i - 1..i - 1 + |p|] == s[i..i + |p|];
          assert OccursAt(s[1..], p, i - 1);
        }
      }
      r
  }

  // ---------------------------------------------------------------------
  // split / join

  /** `s.split(sep)` for a non-empty separator: the separator is matched
      leftmost-first, without overlap, and the pieces between the matches are
      returned in order; a string without the separator gives `[s]`. */
  function Split(s: string, sep: string): (parts: seq<string>)
    requires sep != []
    ensures |parts| >= 1
    ensures StartsWith(s, parts[0])
    decreases |s|
  {
    if |s| < |sep| then [s]
    else if s[..|sep|] == sep then [""] + Split(s[|sep|..], sep)
    else
      var rest := Split(s[1..], sep);
      [[s[0]] + rest[0]] + rest[1..]
  }

  /** The separator is cut out wherever it occurs: no piece contains it. */
  lemma {:induction false} SplitPiecesFreeOfSeparator(s: string, sep: string)
    requires sep != []
    ensures forall k, i :: 0 <= k < |Split(s, sep)| ==> !OccursAt(Split(s, sep)[k], sep, i)
    decreases |s|
  {
    var parts := Split(s, sep);
    if |s| < |sep| {
    } else if s[..|sep|] == sep {
      SplitPiecesFreeOfSeparator(s[|sep|..], sep);
      assert parts[1..] == Split(s[|sep|..], sep);
    } else {
      var rest := Split(s[1..], sep);
      SplitPiecesFreeOfSeparator(s[1..], sep);
      assert parts[1..] == rest[1..];
      forall i
        ensures !OccursAt(parts[0], sep, i)
      {
        if i > 0 {
          OccursInLongerPiece(s[0], rest[0], sep, i);
        }
      }
    }
  }

  /** An occurrence past the first character of `[c] + piece` lies in `piece`. */
  lemma OccursInLongerPiece(c: char, piece: string, sep: string, i: int)
    requires i > 0
    ensures OccursAt([c] + piece, sep, i) ==> OccursAt(piece, sep, i - 1)
  {
    if OccursAt([c] + piece, sep, i) {
      assert ([c] + piece)[i..i + |sep|] == piece[i - 1..i - 1 + |sep|];
    }
  }

  /** `parts.join(sep)`. */
  function Join(parts: seq<string>, sep: string): string
    decreases |parts|
  {
    if |parts| == 0 then ""
    else if |parts| == 1 then parts[0]
    else parts[0] + sep + Join(parts[1..], sep)
  }

  /** Splitting loses nothing: joining the pieces with the separator gives the
      original string back. */
  lemma {:induction false} JoinSplit(s: string, sep: string)
    requires sep != []
    ensures Join(Split(s, sep), sep) == s
    decreases |s|
  {
    if |s| < |sep| {
    } else if s[..|sep|] == sep {
      var rest := Split(s[|sep|..], sep);
      JoinSplit(s[|sep|..], sep);
      JoinCons("", rest, sep);
      assert s == sep + s[|sep|..];
    } else {
      var rest := Split(s[1..], sep);
      JoinSplit(s[1..], sep);
      JoinPrepend(s[0], rest, sep);
      assert s == [s[0]] + s[1..];
    }
  }

  lemma JoinCons(x: string, rest: seq<string>, sep: string)
    requires rest != []
    ensures Join([x] + rest, sep) == x + sep + Join(rest, sep)
  {
    assert ([x] + rest)[1..] == rest;
  }

  lemma JoinPrepend(c: char, parts: seq<string>, sep: string)
    requires parts != []
    ensures Join([[c] + parts[0]] + parts[1..], sep) == [c] + Join(parts, sep)
  {
    var q := [[c] + parts[0]] + parts[1..];
    if |parts| > 1 {
      assert q[1..] == parts[1..];
      assert Join(q, sep) == ([c] + parts[0]) + sep + Join(parts[1..], sep);
      assert Join(parts, sep) == parts[0] + sep + Join(parts[1..], sep);
    }
  }

  /** Index of the first `c` in `s`, or `|s|` when there is none. */
  function IndexOf(s: string, c: char): (k: nat)
    ensures k <= |s|
    ensures c !in s[..k]
    ensures k < |s| ==> s[k] == c
    decreases |s|
  {
    if s == [] then 0
    else if s[0] == c then 0
    else
      var k := IndexOf(s[1..], c) + 1;
      assert s[..k] == [s[0]] + s[1..][..k - 1];
      k
  }

  /** Splitting on one character: the first piece is everything before the
      first occurrence, and the rest is the split of what follows it. */
  lemma {:induction false} SplitOnChar(s: string, c: char)
    ensures Split(s, [c])[0] == s[..IndexOf(s, c)]
    ensures IndexOf(s, c) == |s| ==> Split(s, [c]) == [s]
    ensures IndexOf(s, c) < |s| ==>
      |Split(s, [c])| >= 2 && Split(s, [c])[1..] == Split(s[IndexOf(s, c) + 1..], [c])
    decreases |s|
  {
    if s == [] {
    } else if s[0] == c {
      assert s[..1] == [c];
      assert ([""] + Split(s[1..], [c]))[1..] == Split(s[1..], [c]);
    } else {
      assert s[..1] != [c];
      SplitOnChar(s[1..], c);
      var k := IndexOf(s[1..], c);
      assert IndexOf(s, c) == k + 1;
      assert s[..k + 1] == [s[0]] + s[1..][..k];
      if k == |s[1..]| {
        assert s == [s[0]] + s[1..];
      } else {
        assert s[1..][k + 1..] == s[k + 2..];
      }
    }
  }

  /** A piece free of the separator's first character, followed by the
      separator, is split off as the first piece. */
  lemma {:induction false} SplitAfterPiece(x: string, sep: string, y: string)
    requires sep != []
    requires sep[0] !in x
    ensures Split(x + sep + y, sep) == [x] + Split(y, sep)
    decreases |x|
  {
    var s := x + sep + y;
    if x == [] {
      assert s == sep + y;
      assert s[..|sep|] == sep;
      assert s[|sep|..] == y;
    } else {
      assert s[0] == x[0] != sep[0];
      assert s[..|sep|] != sep by { assert s[..|sep|][0] == s[0]; }
      SplitAfterPiece(x[1..], sep, y);
      assert s[1..] == x[1..] + sep + y;
      assert [s[0]] + x[1..] == x;
    }
  }

  // ---------------------------------------------------------------------
  // trim

  /** The characters `String.prototype.trim` removes: ECMAScript's WhiteSpace
      (tab, vertical tab, form feed, no-break space, the byte order mark and
      the space separators) and LineTerminator characters. */
  predicate IsJsWhitespace(c: char) {
    c == '\t' || c == '\n' || c == '\U{000B}' || c == '\U{000C}' || c == '\r'
    || c == ' ' || c == '\U{00A0}' || c == '\U{1680}'
    || ('\U{2000}' <= c <= '\U{200A}')
    || c == '\U{2028}' || c == '\U{2029}' || c == '\U{202F}' || c == '\U{205F}'
    || c == '\U{3000}' || c == '\U{FEFF}'
  }

  /** `s` with its leading whitespace removed. */
  function TrimStart(s: string): (r: string)
    ensures |r| <= |s| && r == s[|s| - |r|..]
    ensures forall k :: 0 <= k < |s| - |r| ==> IsJsWhitespace(s[k])
    ensures r != [] ==> !IsJsWhitespace(r[0])
    decreases |s|
  {
    if s != [] && IsJsWhitespace(s[0]) then TrimStart(s[1..]) else s
  }

  /** `s` with its trailing whitespace removed. */
  function TrimEnd(s: string): (r: string)
    ensures |r| <= |s| && r == s[..|r|]
    ensures forall k :: |r| <= k < |s| ==> IsJsWhitespace(s[k])
    ensures r != [] ==> !IsJsWhitespace(r[|r| - 1])
    decreases |s|
  {
    if s != [] && IsJsWhitespace(s[|s| - 1]) then TrimEnd(s[..|s| - 1]) else s
  }

  /** `s.trim()`: the longest slice of `s` that neither starts nor ends with
      whitespace, everything cut away being whitespace. */
  function Trim(s: string): (r: string)
    ensures exists i :: IsTrimmedSliceAt(s, r, i)
    ensures r != [] ==> !IsJsWhitespace(r[0]) && !IsJsWhitespace(r[|r| - 1])
  {
    var t := TrimStart(s);
    var r := TrimEnd(t);
    var i := |s| - |t|;
    assert r == s[i..i + |r|];
    assert IsTrimmedSliceAt(s, r, i);
    r
  }

  /** `r` is the slice of `s` starting at `i`, with only whitespace around it. */
  predicate IsTrimmedSliceAt(s: string, r: string, i: int) {
    && 0 <= i <= |s| - |r| && r == s[i..i + |r|]
    && (forall k :: 0 <= k < i ==> IsJsWhitespace(s[k]))
    && (forall k :: i + |r| <= k < |s| ==> IsJsWhitespace(s[k]))
  }

  // ---------------------------------------------------------------------
  // The capture group of /<marker>([^\/]+)/

  /** `s` has `marker` at `i`, followed by at least one character that is not
      a slash: the regular expression can match starting at `i`. */
  predicate SegmentStartsAt(s: string, marker: string, i: int) {
    OccursAt(s, marker, i) && i + |marker| < |s| && s[i + |marker|] != '/'
  }

  /** The leftmost position at or after `from` where the expression matches. */
  function FirstSegmentStart(s: string, marker: string, from: nat): (r: Option<nat>)
    ensures r.Some? ==> from <= r.value && SegmentStartsAt(s, marker, r.value)
    ensures r.Some? ==> forall j :: from <= j < r.value ==> !SegmentStartsAt(s, marker, j)
    ensures r.None? ==> forall j :: from <= j ==> !SegmentStartsAt(s, marker, j)
    decreases |s| - from
  {
    if from >= |s| then None
    else if SegmentStartsAt(s, marker, from) then Some(from)
    else FirstSegmentStart(s, marker, from + 1)
  }

  /** The longest prefix of `s` without a slash: what the greedy `[^\/]+`
      consumes. */
  function RunWithoutSlash(s: string): (r: string)
    ensures StartsWith(s, r)
    ensures '/' !in r
    ensures |r| == |s| || s[|r|] == '/'
    decreases |s|
  {
    if s == [] || s[0] == '/' then []
    else [s[0]] + RunWithoutSlash(s[1..])
  }

  /** The expression's first match starts at `i` and captures `v`. */
  predicate IsLeftmostCapture(s: string, marker: string, i: int, v: string) {
    && SegmentStartsAt(s, marker, i)
    && (forall j :: 0 <= j < i ==> !SegmentStartsAt(s, marker, j))
    && v == RunWithoutSlash(s[i + |marker|..])
  }

  /** `s.match(/<marker>([^\/]+)/)?.[1]`: the slash-free, non-empty run that
      follows the leftmost occurrence of `marker` that is followed by a
      character other than a slash. */
  function MatchSegmentAfter(s: string, marker: string): (r: Option<string>)
    ensures r.None? <==> forall j :: !SegmentStartsAt(s, marker, j)
    ensures r.Some? ==> r.value != [] && '/' !in r.value
    ensures r.Some? ==> exists i :: IsLeftmostCapture(s, marker, i, r.value)
  {
    match FirstSegmentStart(s, marker, 0)
    case None => None
    case Some(i) =>
      var v := RunWithoutSlash(s[i + |marker|..]);
      assert v != [] by { assert s[i + |marker|..][0] != '/'; }
      assert IsLeftmostCapture(s, marker, i, v);
      Some(v)
  }

  /** A string that begins with `marker`, a non-empty slash-free segment and
      then nothing or a slash yields exactly that segment. */
  lemma MatchSegmentOfBuiltPath(marker: string, segment: string, rest: string)
    requires segment != [] && '/' !in segment
    requires rest == [] || rest[0] == '/'
    ensures MatchSegmentAfter(marker + segment + rest, marker) == Some(segment)
  {
    var s := marker + segment + rest;
    assert s[..|marker|] == marker;
    assert s[|marker|] == segment[0];
    assert SegmentStartsAt(s, marker, 0);
    var tail := s[|marker|..];
    assert tail == segment + rest;
    RunOfSegment(segment, rest);
  }

  lemma {:induction false} RunOfSegment(segment: string, rest: string)
    requires '/' !in segment
    requires rest == [] || rest[0] == '/'
    ensures RunWithoutSlash(segment + rest) == segment
    decreases |segment|
  {
    if segment == [] {
      assert segment + rest == rest;
    } else {
      assert (segment + rest)[0] == segment[0];
      assert (segment + rest)[1..] == segment[1..] + rest;
      RunOfSegment(segment[1..], rest);
      assert [segment[0]] + segment[1..] == segment;
    }
  }

  // ---------------------------------------------------------------------
  // Decimal rendering of integers (`n + ''`)

  predicate IsDigit(c: char) {
    '0' <= c <= '9'
  }

  function DigitChar(d: nat): (c: char)
    requires d < 10
    ensures IsDigit(c)
  {
    ('0' as int + d) as char
  }

  /** The decimal numeral of `n`, as JavaScript prints an integer: no leading
      zeros, at least one digit. */
  function NatToString(n: nat): (s: string)
    ensures s != []
    ensures forall k :: 0 <= k < |s| ==> IsDigit(s[k])
    ensures s[0] == '0' ==> n == 0
    decreases n
  {
    if n < 10 then [DigitChar(n)]
    else NatToString(n / 10) + [DigitChar(n % 10)]
  }

  /** The decimal rendering of an integer that may be negative: a `-` for a
      negative number, then the digits of its magnitude. */
  function IntToString(i: int): (s: string)
    ensures s != []
    ensures i < 0 <==> s[0] == '-'
    ensures var digits := if i < 0 then s[1..] else s;
      && digits != []
      && (forall k :: 0 <= k < |digits| ==> IsDigit(digits[k]))
      && ParseNat(digits) == (if i < 0 then -i else i)
      && (digits[0] == '0' ==> i == 0)
  {
    ParseNatToString(if i < 0 then -i else i);
    if i < 0 then "-" + NatToString(-i) else NatToString(i)
  }

  /** The value of a string of decimal digits (the reading used to show that
      a rendering is faithful). */
  function ParseNat(s: string): nat
    requires forall k :: 0 <= k < |s| ==> IsDigit(s[k])
    decreases |s|
  {
    if s == [] then 0
    else ParseNat(s[..|s| - 1]) * 10 + DigitValue(s[|s| - 1])
  }

  function DigitValue(c: char): (d: nat)
    requires IsDigit(c)
    ensures d < 10
  {
    assert '0' as int <= c as int <= '9' as int;
    c as int - '0' as int
  }

  /** Reading the rendering of `n` gives `n` back. */
  lemma {:induction false} ParseNatToString(n: nat)
    ensures ParseNat(NatToString(n)) == n
    decreases n
  {
    if n >= 10 {
      ParseNatToString(n / 10);
      var s := NatToString(n);
      assert s[..|s| - 1] == NatToString(n / 10);
    }
  }
}
