/**
 * The string sanitisers, the URL file-name extractor, the success/error guard
 * of the common request helper and the positional key renamer of the task
 * management utilities. A `string` holds Unicode scalar values, one `char` per
 * character. JavaScript's `length` and `slice` count UTF-16 code units; the two
 * counts agree only for text in the Basic Multilingual Plane.
 */
module TaskManageUtils {
  import opened Js

  // ---------------------------------------------------------------------------
  // Whitespace and trim
  // ---------------------------------------------------------------------------

  /**
   * The characters that `String.prototype.trim` removes and that the regular
   * expression class `\s` matches: ECMAScript's WhiteSpace (tab, vertical tab,
   * form feed, space, no-break space, byte order mark and the space separators)
   * and LineTerminator (line feed, carriage return, line and paragraph separators).
   */
  predicate IsJsWhitespace(c: char)
  {
    || c == '\t' || c == '\n' || c == '\U{000B}' || c == '\U{000C}' || c == '\r'
    || c == ' ' || c == '\U{00A0}' || c == '\U{1680}' || ('\U{2000}' <= c <= '\U{200A}')
    || c == '\U{2028}' || c == '\U{2029}' || c == '\U{202F}' || c == '\U{205F}'
    || c == '\U{3000}' || c == '\U{FEFF}'
  }

  predicate AllWhitespace(s: string)
  {
    forall i :: 0 <= i < |s| ==> IsJsWhitespace(s[i])
  }

  predicate NoWhitespace(s: string)
  {
    forall i :: 0 <= i < |s| ==> !IsJsWhitespace(s[i])
  }

  /** Positions `lo` to `hi` (exclusive) of `s` hold whitespace only. */
  predicate WhitespaceBetween(s: string, lo: int, hi: int)
    requires 0 <= lo && hi <= |s|
  {
    forall i :: lo <= i < hi ==> IsJsWhitespace(s[i])
  }

  /** Leading whitespace removed: what was cut is all whitespace and what is left does not start with it. */
  function TrimStart(s: string): (r: string)
    ensures |r| <= |s|
    ensures WhitespaceBetween(s, 0, |s| - |r|)
    ensures r == [] || !IsJsWhitespace(r[0])
  {
    if s != [] && IsJsWhitespace(s[0]) then
      var r := TrimStart(s[1..]);
      assert forall i :: 1 <= i < |s| - |r| ==> s[i] == s[1..][i - 1];
      r
    else
      s
  }

  /** Trailing whitespace removed: what was cut is all whitespace and what is left does not end with it. */
  function TrimEnd(s: string): (r: string)
    ensures |r| <= |s|
    ensures WhitespaceBetween(s, |r|, |s|)
    ensures r == [] || !IsJsWhitespace(r[|r| - 1])
  {
    if s != [] && IsJsWhitespace(s[|s| - 1]) then
      var r := TrimEnd(s[..|s| - 1]);
      assert forall i :: |r| <= i < |s| - 1 ==> s[i] == s[..|s| - 1][i];
      r
    else
      s
  }

  /** What TrimStart leaves is the suffix of `s` of that length. */
  lemma {:induction false} TrimStartIsSuffix(s: string)
    ensures TrimStart(s) == s[|s| - |TrimStart(s)|..]
  {
    if s != [] && IsJsWhitespace(s[0]) {
      TrimStartIsSuffix(s[1..]);
      assert s[1..][|s| - 1 - |TrimStart(s)|..] == s[|s| - |TrimStart(s)|..];
    }
  }

  /** What TrimEnd leaves is the prefix of `s` of that length. */
  lemma {:induction false} TrimEndIsPrefix(s: string)
    ensures TrimEnd(s) == s[..|TrimEnd(s)|]
  {
    if s != [] && IsJsWhitespace(s[|s| - 1]) {
      TrimEndIsPrefix(s[..|s| - 1]);
      assert s[..|s| - 1][..|TrimEnd(s)|] == s[..|TrimEnd(s)|];
    }
  }

  /** `r` sits at position `i` of `s`, with only whitespace before and after it. */
  predicate TrimmedAt(s: string, r: string, i: int)
  {
    0 <= i <= |s| - |r| && r == s[i..i + |r|] && WhitespaceBetween(s, 0, i) && WhitespaceBetween(s, i + |r|, |s|)
  }

  /**
   * `String.prototype.trim`: the result neither starts nor ends with
   * whitespace, and it is empty exactly when `s` is all whitespace. That it is
   * the slice of `s` between a whitespace-only head and a whitespace-only tail
   * is TrimIsSlice.
   */
  function Trim(s: string): (r: string)
    ensures r == [] <==> AllWhitespace(s)
    ensures r != [] ==> !IsJsWhitespace(r[0]) && !IsJsWhitespace(r[|r| - 1])
  {
    var t := TrimStart(s);
    var r := TrimEnd(t);
    TrimEndIsPrefix(t);
    TrimSlices(s, t, r);
    r
  }

  /** Trim cuts a whitespace-only head and a whitespace-only tail and keeps what lies between. */
  lemma TrimIsSlice(s: string)
    ensures exists i :: TrimmedAt(s, Trim(s), i)
  {
    TrimSlices(s, TrimStart(s), Trim(s));
  }

  /** The two halves of Trim put together: the result sits between the cut head and the cut tail. */
  lemma TrimSlices(s: string, t: string, r: string)
    requires t == TrimStart(s) && r == TrimEnd(t)
    ensures TrimmedAt(s, r, |s| - |t|)
    ensures r == [] <==> AllWhitespace(s)
  {
    var i := |s| - |t|;
    TrimStartIsSuffix(s);
    TrimEndIsPrefix(t);
    TrimTail(s, t, r);
    assert r == [] ==> WhitespaceBetween(s, i, |s|);
    assert t != [] ==> t[0] == s[i];
  }

  /** The tail that TrimEnd cuts from the suffix is a tail of the whole string. */
  lemma TrimTail(s: string, t: string, r: string)
    requires |t| <= |s| && t == s[|s| - |t|..]
    requires |r| <= |t| && r == t[..|r|] && WhitespaceBetween(t, |r|, |t|)
    ensures s[|s| - |t|..|s| - |t| + |r|] == r
    ensures WhitespaceBetween(s, |s| - |t| + |r|, |s|)
  {
    var i := |s| - |t|;
    forall j | i + |r| <= j < |s|
      ensures IsJsWhitespace(s[j])
    {
      assert s[j] == t[j - i];
    }
  }

  /** Trimming brings in no character that was not there. */
  lemma TrimKeepsAbsence(s: string, c: char)
    ensures c !in s ==> c !in Trim(s)
  {
    var r := Trim(s);
    TrimIsSlice(s);
    var i :| TrimmedAt(s, r, i);
    assert r == s[i..i + |r|];
  }

  // ---------------------------------------------------------------------------
  // Patterns: occurrence, global replacement, split and join
  // ---------------------------------------------------------------------------

  predicate StartsWith(s: string, p: string)
  {
    |p| <= |s| && s[..|p|] == p
  }

  predicate OccursAt(s: string, p: string, i: int)
  {
    0 <= i <= |s| - |p| && s[i..i + |p|] == p
  }

  /** `s.indexOf(p) >= 0`. */
  predicate Contains(s: string, p: string)
  {
    exists i | 0 <= i <= |s| - |p| :: OccursAt(s, p, i)
  }

  /** An occurrence either starts at the front or lies in the tail. */
  lemma ContainsUnfold(s: string, p: string)
    requires p != []
    ensures Contains(s, p) <==> StartsWith(s, p) || (s != [] && Contains(s[1..], p))
  {
    if Contains(s, p) {
      var i: int :| 0 <= i <= |s| - |p| && OccursAt(s, p, i);
      if i > 0 {
        assert s[1..][i - 1..i - 1 + |p|] == p;
        assert OccursAt(s[1..], p, i - 1);
      } else {
        assert s[..|p|] == p;
      }
    }
    if s != [] && Contains(s[1..], p) {
      var t := s[1..];
      var j: int :| 0 <= j <= |t| - |p| && OccursAt(t, p, j);
      assert s[j + 1..j + 1 + |p|] == t[j..j + |p|];
      assert OccursAt(s, p, j + 1);
    }
    if StartsWith(s, p) {
      assert OccursAt(s, p, 0);
    }
  }

  /** A string that lacks the first character of a pattern cannot contain it. */
  lemma MissingHeadNotContained(s: string, p: string)
    requires p != [] && p[0] !in s
    ensures !Contains(s, p)
  {
    forall i | 0 <= i <= |s| - |p|
      ensures !OccursAt(s, p, i)
    {
      assert s[i..i + |p|][0] == s[i] && s[i] in s;
    }
  }

  /**
   * `s.replace(/p/g, rep)` for a literal pattern: occurrences are found from the
   * left and do not overlap.
   */
  function ReplaceAll(s: string, p: string, rep: string): (r: string)
    requires p != []
    ensures rep != [] ==> (r == [] <==> s == [])
    decreases |s|
  {
    if StartsWith(s, p) then rep + ReplaceAll(s[|p|..], p, rep)
    else if s == [] then []
    else [s[0]] + ReplaceAll(s[1..], p, rep)
  }

  /** `s.split(sep)` for a non-empty literal separator. */
  function Split(s: string, sep: string): (parts: seq<string>)
    requires sep != []
    ensures |parts| >= 1
    decreases |s|
  {
    if StartsWith(s, sep) then [[]] + Split(s[|sep|..], sep)
    else if s == [] then [[]]
    else
      var rest := Split(s[1..], sep);
      [[s[0]] + rest[0]] + rest[1..]
  }

  /** The summed lengths of some pieces. */
  function TotalLength(parts: seq<string>): nat
  {
    if parts == [] then 0 else |parts[0]| + TotalLength(parts[1..])
  }

  /** `parts.join(glue)`: the pieces in order, one glue between each two. */
  function Join(parts: seq<string>, glue: string): string
    requires |parts| >= 1
  {
    if |parts| == 1 then parts[0] else parts[0] + glue + Join(parts[1..], glue)
  }

  /** A join holds the pieces and one glue fewer than there are pieces, nothing more. */
  lemma {:induction false} JoinLength(parts: seq<string>, glue: string)
    requires |parts| >= 1
    ensures |Join(parts, glue)| == TotalLength(parts) + (|parts| - 1) * |glue|
  {
    if |parts| > 1 {
      JoinLength(parts[1..], glue);
    }
  }

  /** Joining the pieces of a split with some glue is the global replacement of the separator by that glue. */
  lemma {:induction false} SplitJoinIsReplaceAll(s: string, sep: string, glue: string)
    requires sep != []
    ensures Join(Split(s, sep), glue) == ReplaceAll(s, sep, glue)
    decreases |s|
  {
    if StartsWith(s, sep) {
      SplitJoinIsReplaceAll(s[|sep|..], sep, glue);
      JoinConsEmpty(Split(s[|sep|..], sep), glue);
    } else if s != [] {
      SplitJoinIsReplaceAll(s[1..], sep, glue);
      JoinConsHead(s[0], Split(s[1..], sep), glue);
    }
  }

  /** An empty first piece leaves only the glue in front of the join of the rest. */
  lemma JoinConsEmpty(rest: seq<string>, glue: string)
    requires |rest| >= 1
    ensures Join([[]] + rest, glue) == glue + Join(rest, glue)
  {
    assert ([[]] + rest)[1..] == rest;
  }

  /** Putting a character in front of the first piece puts it in front of the join. */
  lemma JoinConsHead(c: char, rest: seq<string>, glue: string)
    requires |rest| >= 1
    ensures Join([[c] + rest[0]] + rest[1..], glue) == [c] + Join(rest, glue)
  {
    if |rest| > 1 {
      assert ([[c] + rest[0]] + rest[1..])[1..] == rest[1..];
    }
  }

  /** Replacing a pattern by itself changes nothing. */
  lemma {:induction false} ReplaceAllBySelf(s: string, p: string)
    requires p != []
    ensures ReplaceAll(s, p, p) == s
    decreases |s|
  {
    if StartsWith(s, p) {
      ReplaceAllBySelf(s[|p|..], p);
      assert s == s[..|p|] + s[|p|..];
    } else if s != [] {
      ReplaceAllBySelf(s[1..], p);
      assert s == [s[0]] + s[1..];
    }
  }

  /** Splitting and joining back with the same separator gives the string back. */
  lemma SplitJoinRoundTrip(s: string, sep: string)
    requires sep != []
    ensures Join(Split(s, sep), sep) == s
  {
    SplitJoinIsReplaceAll(s, sep, sep);
    ReplaceAllBySelf(s, sep);
  }

  /** A string without the pattern passes through the replacement unchanged. */
  lemma {:induction false} ReplaceAllAbsent(s: string, p: string, rep: string)
    requires p != []
    ensures !Contains(s, p) ==> ReplaceAll(s, p, rep) == s
    decreases |s|
  {
    ContainsUnfold(s, p);
    if s != [] && !Contains(s, p) {
      ReplaceAllAbsent(s[1..], p, rep);
      assert s == [s[0]] + s[1..];
    }
  }

  /**
   * Up to the first character `c` that the replacement inserts, the output of a
   * replacement by `[c]` is the input itself.
   */
  lemma {:induction false} ReplaceAllKeepsPrefix(t: string, p: string, c: char, q: string)
    requires p != [] && c !in q
    ensures StartsWith(ReplaceAll(t, p, [c]), q) ==> StartsWith(t, q)
    decreases |t|
  {
    var out := ReplaceAll(t, p, [c]);
    if StartsWith(t, p) {
      assert out[0] == c;
    } else if t != [] && q != [] && StartsWith(out, q) {
      var rest := ReplaceAll(t[1..], p, [c]);
      assert out == [t[0]] + rest;
      assert rest[..|q| - 1] == out[1..|q|];
      ReplaceAllKeepsPrefix(t[1..], p, c, q[1..]);
      assert t[..|q|] == [t[0]] + t[1..][..|q| - 1];
    }
  }

  /** Replacing every occurrence by a character the pattern does not contain leaves no occurrence behind. */
  lemma {:induction false} ReplaceAllRemovesPattern(s: string, p: string, c: char)
    requires p != [] && c !in p
    ensures !Contains(ReplaceAll(s, p, [c]), p)
    decreases |s|
  {
    var out := ReplaceAll(s, p, [c]);
    if StartsWith(s, p) {
      var rest := ReplaceAll(s[|p|..], p, [c]);
      ReplaceAllRemovesPattern(s[|p|..], p, c);
      ContainsUnfold(out, p);
      assert out[1..] == rest;
      assert !StartsWith(out, p) by { assert out[0] == c; }
    } else if s != [] {
      var rest := ReplaceAll(s[1..], p, [c]);
      ReplaceAllRemovesPattern(s[1..], p, c);
      ContainsUnfold(out, p);
      assert out == [s[0]] + rest;
      ReplaceAllKeepsPrefix(s[1..], p, c, p[1..]);
      assert |p| <= |s| ==> s[..|p|] == [s[0]] + s[1..][..|p| - 1];
      assert |p| <= |out| ==> out[..|p|] == [s[0]] + rest[..|p| - 1];
    } else {
      ContainsUnfold(out, p);
    }
  }

  /**
   * Replacement works piece by piece: when no occurrence starts inside `a`, the
   * text of `a` and the text after it are replaced separately.
   */
  lemma {:induction false} ReplaceAllAppend(a: string, b: string, p: string, rep: string)
    requires p != []
    requires forall i | 0 <= i < |a| :: !OccursAt(a + b, p, i)
    ensures ReplaceAll(a + b, p, rep) == ReplaceAll(a, p, rep) + ReplaceAll(b, p, rep)
    decreases |a|
  {
    if a == [] {
      assert a + b == b;
    } else {
      assert !OccursAt(a + b, p, 0);
      assert (a + b)[1..] == a[1..] + b;
      forall i | 0 <= i < |a| - 1
        ensures !OccursAt(a[1..] + b, p, i)
      {
        assert !OccursAt(a + b, p, i + 1);
        if i <= |a[1..] + b| - |p| {
          assert (a[1..] + b)[i..i + |p|] == (a + b)[i + 1..i + 1 + |p|];
        }
      }
      ReplaceAllAppend(a[1..], b, p, rep);
    }
  }

  // ---------------------------------------------------------------------------
  // Single-character replacements
  // ---------------------------------------------------------------------------

  /** `s.replace(/c/g, rep)` for a single character `c`. */
  function ReplaceChar(s: string, c: char, rep: string): (r: string)
    ensures rep != [] ==> (r == [] <==> s == [])
  {
    if s == [] then []
    else (if s[0] == c then rep else [s[0]]) + ReplaceChar(s[1..], c, rep)
  }

  /** A single character becomes the replacement when it is `c`, and stays otherwise. */
  lemma ReplaceCharSingle(x: char, c: char, rep: string)
    ensures ReplaceChar([x], c, rep) == if x == c then rep else [x]
  {
    assert [x][1..] == [];
  }

  /** A string without `c` passes through unchanged. */
  lemma {:induction false} ReplaceCharAbsent(s: string, c: char, rep: string)
    ensures c !in s ==> ReplaceChar(s, c, rep) == s
  {
    if s != [] && c !in s {
      assert c !in s[1..] by {
        assert forall x :: x in s[1..] ==> x in s;
      }
      ReplaceCharAbsent(s[1..], c, rep);
      assert s == [s[0]] + s[1..];
    }
  }

  /** Every character of the result comes from the input (and is not `c`) or from the replacement. */
  lemma {:induction false} ReplaceCharOrigin(s: string, c: char, rep: string)
    ensures forall x :: x in ReplaceChar(s, c, rep) ==> (x in s && x != c) || x in rep
  {
    if s != [] {
      ReplaceCharOrigin(s[1..], c, rep);
      var head := if s[0] == c then rep else [s[0]];
      assert ReplaceChar(s, c, rep) == head + ReplaceChar(s[1..], c, rep);
      assert forall x :: x in s[1..] ==> x in s;
    }
  }

  lemma {:induction false} ReplaceCharAppend(a: string, b: string, c: char, rep: string)
    ensures ReplaceChar(a + b, c, rep) == ReplaceChar(a, c, rep) + ReplaceChar(b, c, rep)
  {
    if a != [] {
      ReplaceCharAppend(a[1..], b, c, rep);
      assert (a + b)[1..] == a[1..] + b;
    } else {
      assert a + b == b;
    }
  }

  /** `s.replace(/\s/g, rep)`. */
  function ReplaceWhitespace(s: string, rep: string): (r: string)
    ensures rep != [] ==> (r == [] <==> s == [])
  {
    if s == [] then []
    else (if IsJsWhitespace(s[0]) then rep else [s[0]]) + ReplaceWhitespace(s[1..], rep)
  }

  /** A replacement without whitespace leaves no whitespace behind. */
  lemma {:induction false} ReplaceWhitespaceClean(s: string, rep: string)
    requires NoWhitespace(rep)
    ensures NoWhitespace(ReplaceWhitespace(s, rep))
  {
    if s != [] {
      ReplaceWhitespaceClean(s[1..], rep);
      var head := if IsJsWhitespace(s[0]) then rep else [s[0]];
      var r := ReplaceWhitespace(s, rep);
      assert r == head + ReplaceWhitespace(s[1..], rep);
      forall i | 0 <= i < |r|
        ensures !IsJsWhitespace(r[i])
      {
        if i >= |head| {
          assert r[i] == ReplaceWhitespace(s[1..], rep)[i - |head|];
        }
      }
    }
  }

  /** A string without whitespace passes through unchanged. */
  lemma {:induction false} ReplaceWhitespaceIdentity(s: string, rep: string)
    ensures NoWhitespace(s) ==> ReplaceWhitespace(s, rep) == s
  {
    if s != [] && NoWhitespace(s) {
      assert NoWhitespace(s[1..]) by {
        forall i | 0 <= i < |s[1..]| ensures !IsJsWhitespace(s[1..][i]) {
          assert s[1..][i] == s[i + 1];
        }
      }
      ReplaceWhitespaceIdentity(s[1..], rep);
      assert !IsJsWhitespace(s[0]);
      assert s == [s[0]] + s[1..];
    }
  }

  lemma {:induction false} ReplaceWhitespaceAppend(a: string, b: string, rep: string)
    ensures ReplaceWhitespace(a + b, rep) == ReplaceWhitespace(a, rep) + ReplaceWhitespace(b, rep)
  {
    if a != [] {
      ReplaceWhitespaceAppend(a[1..], b, rep);
      assert (a + b)[1..] == a[1..] + b;
    } else {
      assert a + b == b;
    }
  }

  // ---------------------------------------------------------------------------
  // replaceLineCharacter
  // ---------------------------------------------------------------------------

  /** The line-break marker that the mobile pages store in the database. */
  const LINE_MARKER: string := "$#B$R#$"

  /** `str.split(LINE_MARKER).join(" ")`. */
  function ReplaceLineCharacter(str: string): (r: string)
    ensures r == ReplaceAll(str, LINE_MARKER, " ")
    ensures !Contains(r, LINE_MARKER)
    ensures !Contains(str, LINE_MARKER) ==> r == str
  {
    SplitJoinIsReplaceAll(str, LINE_MARKER, " ");
    ReplaceAllRemovesPattern(str, LINE_MARKER, ' ');
    ReplaceAllAbsent(str, LINE_MARKER, " ");
    Join(Split(str, LINE_MARKER), " ")
  }

  /** `n` copies of `s` back to back. */
  function Repeat(s: string, n: nat): string
  {
    if n == 0 then [] else s + Repeat(s, n - 1)
  }

  /** Each marker becomes exactly one space. */
  lemma {:induction false} MarkersBecomeSpaces(n: nat)
    ensures ReplaceLineCharacter(Repeat(LINE_MARKER, n)) == Repeat(" ", n)
  {
    if n > 0 {
      var s := Repeat(LINE_MARKER, n);
      assert StartsWith(s, LINE_MARKER);
      assert s[|LINE_MARKER|..] == Repeat(LINE_MARKER, n - 1);
      MarkersBecomeSpaces(n - 1);
    }
  }

  // ---------------------------------------------------------------------------
  // transformHtmlCharactor, transformHtml, replaceOperationGroup
  // ---------------------------------------------------------------------------

  /** `.replace(/</g, "&lt;").replace(/>/g, "&gt;")`. */
  function EscapeAngles(s: string): (r: string)
    ensures '<' !in r && '>' !in r
    ensures r == s <==> '<' !in s && '>' !in s
    ensures r == [] <==> s == []
  {
    var lt := ReplaceChar(s, '<', "&lt;");
    ReplaceCharOrigin(s, '<', "&lt;");
    ReplaceCharOrigin(lt, '>', "&gt;");
    ReplaceCharAbsent(s, '<', "&lt;");
    ReplaceCharAbsent(lt, '>', "&gt;");
    ReplaceChar(lt, '>', "&gt;")
  }

  /**
   * transformHtmlCharactor: "" for a null, empty or whitespace-only argument;
   * otherwise the trimmed string with its angle brackets escaped.
   */
  function TransformHtmlCharactor(str: Option<string>): (r: string)
    ensures r == "" <==> str.None? || AllWhitespace(str.value)
    ensures '<' !in r && '>' !in r
    ensures str.Some? && '<' !in str.value && '>' !in str.value ==> r == Trim(str.value)
  {
    if str.Some? && str.value != "" && Trim(str.value) != "" then
      TrimKeepsAbsence(str.value, '<');
      TrimKeepsAbsence(str.value, '>');
      EscapeAngles(Trim(str.value))
    else
      ""
  }

  const BR: string := "<br/>"

  /** `s.replace(/\n|\r\n/g, "<br/>")`: at each position a line feed is tried first, then CR LF. */
  function NewlinesToBr(s: string): string
  {
    if s == [] then []
    else if s[0] == '\n' then BR + NewlinesToBr(s[1..])
    else if |s| >= 2 && s[0] == '\r' && s[1] == '\n' then BR + NewlinesToBr(s[2..])
    else [s[0]] + NewlinesToBr(s[1..])
  }

  /** No line feed is left, text without one is unchanged, and only "" becomes "". */
  lemma {:induction false} NewlinesToBrClean(s: string)
    ensures '\n' !in NewlinesToBr(s)
    ensures '\n' !in s ==> NewlinesToBr(s) == s
    ensures NewlinesToBr(s) == [] <==> s == []
    decreases |s|
  {
    if s == [] {
    } else if s[0] == '\n' {
      NewlinesToBrClean(s[1..]);
    } else if |s| >= 2 && s[0] == '\r' && s[1] == '\n' {
      NewlinesToBrClean(s[2..]);
    } else {
      NewlinesToBrClean(s[1..]);
      assert '\n' !in s ==> '\n' !in s[1..] by {
        if '\n' in s[1..] {
          var i :| 0 <= i < |s[1..]| && s[1..][i] == '\n';
          assert s[i + 1] == '\n';
        }
      }
    }
  }

  const EMSP: string := "&emsp;"
  const NBSP: string := "&nbsp;"

  /** The last two steps of transformHtml: tabs to `&emsp;`, then every remaining `\s` to `&nbsp;`. */
  function SpaceEntities(s: string): (r: string)
    ensures NoWhitespace(r)
    ensures NoWhitespace(s) ==> r == s
    ensures r == [] <==> s == []
  {
    var tabbed := ReplaceChar(s, '\t', EMSP);
    EntitiesHaveNoWhitespace();
    ReplaceWhitespaceClean(tabbed, NBSP);
    ReplaceWhitespaceIdentity(s, NBSP);
    ReplaceCharAbsent(s, '\t', EMSP);
    assert NoWhitespace(s) ==> '\t' !in s by {
      assert '\t' in s ==> exists i :: 0 <= i < |s| && s[i] == '\t';
    }
    ReplaceWhitespace(tabbed, NBSP)
  }

  lemma SpaceEntitiesAppend(a: string, b: string)
    ensures SpaceEntities(a + b) == SpaceEntities(a) + SpaceEntities(b)
  {
    ReplaceCharAppend(a, b, '\t', EMSP);
    ReplaceWhitespaceAppend(ReplaceChar(a, '\t', EMSP), ReplaceChar(b, '\t', EMSP), NBSP);
  }

  /** The entities that the sanitisers insert hold no whitespace themselves. */
  lemma EntitiesHaveNoWhitespace()
    ensures NoWhitespace(EMSP) && NoWhitespace(NBSP) && NoWhitespace(BR)
  {
    VisibleAsciiHasNoWhitespace(EMSP);
    VisibleAsciiHasNoWhitespace(NBSP);
    VisibleAsciiHasNoWhitespace(BR);
  }

  /** Printable ASCII other than the space is never whitespace. */
  lemma VisibleAsciiHasNoWhitespace(s: string)
    requires forall i :: 0 <= i < |s| ==> '!' <= s[i] <= '~'
    ensures NoWhitespace(s)
  {
  }

  /** A tab becomes `&emsp;` (the `\s` step that follows does not turn it into `&nbsp;`). */
  lemma TabBecomesEmsp(u: string, v: string)
    ensures SpaceEntities(u + "\t" + v) == SpaceEntities(u) + EMSP + SpaceEntities(v)
  {
    SpaceEntitiesAppend(u + "\t", v);
    SpaceEntitiesAppend(u, "\t");
    EntitiesHaveNoWhitespace();
    calc {
      SpaceEntities("\t");
      ReplaceWhitespace(ReplaceChar("\t", '\t', EMSP), NBSP);
      { assert ReplaceChar("\t", '\t', EMSP) == EMSP + ReplaceChar([], '\t', EMSP);
        assert EMSP + [] == EMSP; }
      ReplaceWhitespace(EMSP, NBSP);
      { ReplaceWhitespaceIdentity(EMSP, NBSP); }
      EMSP;
    }
  }

  /** Any other whitespace character becomes `&nbsp;`. */
  lemma OtherWhitespaceBecomesNbsp(u: string, c: char, v: string)
    requires IsJsWhitespace(c) && c != '\t'
    ensures SpaceEntities(u + [c] + v) == SpaceEntities(u) + NBSP + SpaceEntities(v)
  {
    SpaceEntitiesAppend(u + [c], v);
    SpaceEntitiesAppend(u, [c]);
    calc {
      SpaceEntities([c]);
      ReplaceWhitespace(ReplaceChar([c], '\t', EMSP), NBSP);
      { assert ReplaceChar([c], '\t', EMSP) == [c] + ReplaceChar([], '\t', EMSP); }
      ReplaceWhitespace([c], NBSP);
      { assert ReplaceWhitespace([c], NBSP) == NBSP + ReplaceWhitespace([], NBSP); }
      NBSP;
    }
  }

  /**
   * transformHtml: the same empty rule as transformHtmlCharactor; otherwise the
   * trimmed string with angle brackets escaped, LF and CR LF and the line marker
   * turned into `<br/>`, tabs into `&emsp;` and other whitespace into `&nbsp;`.
   * The result holds no whitespace at all.
   */
  function TransformHtml(str: Option<string>): (r: string)
    ensures r == "" <==> str.None? || AllWhitespace(str.value)
    ensures NoWhitespace(r)
  {
    if str.Some? && str.value != "" && Trim(str.value) != "" then
      var escaped := EscapeAngles(Trim(str.value));
      SpaceEntities(ReplaceAll(NewlinesToBr(escaped), LINE_MARKER, BR))
    else
      ""
  }

  /**
   * On a string whose trimmed form holds no whitespace and no `$`, the two
   * sanitisers agree: only the angle-bracket escape has anything to do.
   */
  lemma SanitisersAgree(s: string)
    requires NoWhitespace(Trim(s)) && '$' !in s
    ensures TransformHtml(Some(s)) == TransformHtmlCharactor(Some(s))
  {
    var t := Trim(s);
    if s != "" && t != "" {
      var escaped := EscapeAngles(t);
      TrimKeepsAbsence(s, '$');
      EscapedStaysClean(t);
      NewlinesToBrClean(escaped);
      MissingHeadNotContained(escaped, LINE_MARKER);
      ReplaceAllAbsent(escaped, LINE_MARKER, BR);
    }
  }

  /** Escaping angle brackets brings in no whitespace, no `$` and no line feed. */
  lemma EscapedStaysClean(t: string)
    requires NoWhitespace(t) && '$' !in t
    ensures NoWhitespace(EscapeAngles(t)) && '$' !in EscapeAngles(t) && '\n' !in EscapeAngles(t)
  {
    var escaped := EscapeAngles(t);
    ReplaceCharOrigin(t, '<', "&lt;");
    ReplaceCharOrigin(ReplaceChar(t, '<', "&lt;"), '>', "&gt;");
    forall x | x in escaped
      ensures !IsJsWhitespace(x) && x != '$'
    {
      if x !in t {
        assert x in "&lt;" || x in "&gt;";
      }
    }
  }

  /** Escaping works character by character, so it distributes over concatenation. */
  lemma EscapeAnglesAppend(a: string, b: string)
    ensures EscapeAngles(a + b) == EscapeAngles(a) + EscapeAngles(b)
  {
    ReplaceCharAppend(a, b, '<', "&lt;");
    ReplaceCharAppend(ReplaceChar(a, '<', "&lt;"), ReplaceChar(b, '<', "&lt;"), '>', "&gt;");
  }

  /** `<` becomes `&lt;` and `>` becomes `&gt;`: the brackets are escaped, not dropped. */
  lemma EscapeAnglesEntities()
    ensures EscapeAngles("<") == "&lt;" && EscapeAngles(">") == "&gt;"
  {
    ReplaceCharSingle('<', '<', "&lt;");
    ReplaceCharAbsent("&lt;", '>', "&gt;");
    ReplaceCharSingle('>', '<', "&lt;");
    ReplaceCharSingle('>', '>', "&gt;");
  }

  /** The cut between `a` and `b` does not fall inside a CR LF pair. */
  predicate NoCrLfCut(a: string, b: string)
  {
    a == [] || b == [] || a[|a| - 1] != '\r' || b[0] != '\n'
  }

  /** Concatenation is associative. */
  lemma ConcatAssoc<T>(x: seq<T>, y: seq<T>, z: seq<T>)
    ensures x + (y + z) == (x + y) + z
  {
  }

  /** The first step of the line-break replacement on a line feed. */
  lemma LfHead(s: string)
    requires s != [] && s[0] == '\n'
    ensures NewlinesToBr(s) == BR + NewlinesToBr(s[1..])
  {
  }

  /** The first step of the line-break replacement on CR LF. */
  lemma CrLfHead(s: string)
    requires |s| >= 2 && s[0] == '\r' && s[1] == '\n'
    ensures NewlinesToBr(s) == BR + NewlinesToBr(s[2..])
  {
  }

  /** The first step of the line-break replacement on any other character. */
  lemma PlainHead(s: string)
    requires s != [] && s[0] != '\n' && !(|s| >= 2 && s[0] == '\r' && s[1] == '\n')
    ensures NewlinesToBr(s) == [s[0]] + NewlinesToBr(s[1..])
  {
  }

  /** Where the characters of `a + b` come from, at the front. */
  lemma AppendFront(a: string, b: string)
    requires a != []
    ensures (a + b)[0] == a[0] && (a + b)[1..] == a[1..] + b
    ensures |a| >= 2 ==> (a + b)[1] == a[1] && (a + b)[2..] == a[2..] + b
    ensures |a| == 1 && b != [] ==> (a + b)[1] == b[0]
  {
  }

  /** One step of NewlinesToBrAppend: `a` starts with a line feed. */
  lemma LfAppendStep(a: string, b: string)
    requires a != [] && a[0] == '\n'
    requires NewlinesToBr(a[1..] + b) == NewlinesToBr(a[1..]) + NewlinesToBr(b)
    ensures NewlinesToBr(a + b) == NewlinesToBr(a) + NewlinesToBr(b)
  {
    AppendFront(a, b);
    LfHead(a + b);
    LfHead(a);
    ConcatAssoc(BR, NewlinesToBr(a[1..]), NewlinesToBr(b));
  }

  /** One step of NewlinesToBrAppend: `a` starts with CR LF. */
  lemma CrLfAppendStep(a: string, b: string)
    requires |a| >= 2 && a[0] == '\r' && a[1] == '\n'
    requires NewlinesToBr(a[2..] + b) == NewlinesToBr(a[2..]) + NewlinesToBr(b)
    ensures NewlinesToBr(a + b) == NewlinesToBr(a) + NewlinesToBr(b)
  {
    AppendFront(a, b);
    CrLfHead(a + b);
    CrLfHead(a);
    ConcatAssoc(BR, NewlinesToBr(a[2..]), NewlinesToBr(b));
  }

  /** One step of NewlinesToBrAppend: `a` does not start a line break, and the cut does not split CR LF. */
  lemma PlainAppendStep(a: string, b: string)
    requires a != [] && a[0] != '\n' && !(|a| >= 2 && a[0] == '\r' && a[1] == '\n')
    requires NoCrLfCut(a, b)
    requires NewlinesToBr(a[1..] + b) == NewlinesToBr(a[1..]) + NewlinesToBr(b)
    ensures NewlinesToBr(a + b) == NewlinesToBr(a) + NewlinesToBr(b)
  {
    AppendFront(a, b);
    PlainHead(a + b);
    PlainHead(a);
    ConcatAssoc([a[0]], NewlinesToBr(a[1..]), NewlinesToBr(b));
  }

  /** The line-break replacement works piece by piece, as long as no CR LF pair is cut in two. */
  lemma {:induction false} NewlinesToBrAppend(a: string, b: string)
    requires NoCrLfCut(a, b)
    ensures NewlinesToBr(a + b) == NewlinesToBr(a) + NewlinesToBr(b)
    decreases |a|
  {
    if a == [] {
      assert a + b == b;
    } else if a[0] == '\n' {
      NewlinesToBrAppend(a[1..], b);
      LfAppendStep(a, b);
    } else if |a| >= 2 && a[0] == '\r' && a[1] == '\n' {
      NewlinesToBrAppend(a[2..], b);
      CrLfAppendStep(a, b);
    } else {
      NewlinesToBrAppend(a[1..], b);
      PlainAppendStep(a, b);
    }
  }

  /** A line feed becomes `<br/>` (unless it ends a CR LF pair, see CrLfBecomesBr). */
  lemma LineFeedBecomesBr(u: string, v: string)
    requires u == [] || u[|u| - 1] != '\r'
    ensures NewlinesToBr(u + "\n" + v) == NewlinesToBr(u) + BR + NewlinesToBr(v)
  {
    assert u + "\n" + v == u + ("\n" + v);
    NewlinesToBrAppend(u, "\n" + v);
    assert ("\n" + v)[1..] == v;
  }

  /** A CR LF pair becomes one `<br/>`. */
  lemma CrLfBecomesBr(u: string, v: string)
    requires u == [] || u[|u| - 1] != '\r'
    ensures NewlinesToBr(u + "\r\n" + v) == NewlinesToBr(u) + BR + NewlinesToBr(v)
  {
    assert u + "\r\n" + v == u + ("\r\n" + v);
    NewlinesToBrAppend(u, "\r\n" + v);
    assert ("\r\n" + v)[2..] == v;
  }

  /** The line marker becomes `<br/>`, when no earlier marker overlaps it. */
  lemma LineMarkerBecomesBr(u: string, v: string)
    requires forall i | 0 <= i < |u| :: !OccursAt(u + LINE_MARKER + v, LINE_MARKER, i)
    ensures ReplaceAll(u + LINE_MARKER + v, LINE_MARKER, BR)
         == ReplaceAll(u, LINE_MARKER, BR) + BR + ReplaceAll(v, LINE_MARKER, BR)
  {
    assert u + LINE_MARKER + v == u + (LINE_MARKER + v);
    ReplaceAllAppend(u, LINE_MARKER + v, LINE_MARKER, BR);
    assert StartsWith(LINE_MARKER + v, LINE_MARKER);
    assert (LINE_MARKER + v)[|LINE_MARKER|..] == v;
  }

  /**
   * `s` reads as a series of tokens, each either a `<br/>` or one character
   * that is not an angle bracket: every `<` and `>` in it belongs to a break.
   */
  predicate AnglesOnlyInBreaks(s: string)
    decreases |s|
  {
    if s == [] then true
    else if StartsWith(s, BR) then AnglesOnlyInBreaks(s[|BR|..])
    else s[0] != '<' && s[0] != '>' && AnglesOnlyInBreaks(s[1..])
  }

  /** A slice of `s` that lies past position `k` is the same slice of `s[k..]`, shifted. */
  lemma SliceOfSuffix(s: string, k: nat, lo: nat, hi: nat)
    requires k <= lo <= hi <= |s|
    ensures s[lo..hi] == s[k..][lo - k..hi - k]
    ensures lo < |s| ==> s[k..][lo - k] == s[lo]
  {
  }

  /** The `<` at position `i` of such a string opens a `<br/>`. */
  lemma {:induction false} OpenAt(s: string, i: nat)
    requires AnglesOnlyInBreaks(s) && i < |s| && s[i] == '<'
    ensures i + |BR| <= |s| && s[i..i + |BR|] == BR
    decreases |s|
  {
    var k := if StartsWith(s, BR) then |BR| else 1;
    if k <= i {
      var t := s[k..];
      SliceOfSuffix(s, k, i, i + 1);
      OpenAt(t, i - k);
      SliceOfSuffix(s, k, i, i + |BR|);
    } else if StartsWith(s, BR) {
      assert s[i] == BR[i];
    }
  }

  /** The `>` at position `i` of such a string closes a `<br/>`. */
  lemma {:induction false} CloseAt(s: string, i: nat)
    requires AnglesOnlyInBreaks(s) && i < |s| && s[i] == '>'
    ensures |BR| - 1 <= i && s[i + 1 - |BR|..i + 1] == BR
    decreases |s|
  {
    var k := if StartsWith(s, BR) then |BR| else 1;
    if k <= i {
      var t := s[k..];
      SliceOfSuffix(s, k, i, i + 1);
      CloseAt(t, i - k);
      SliceOfSuffix(s, k, i + 1 - |BR|, i + 1);
    } else if StartsWith(s, BR) {
      assert s[i] == BR[i];
    }
  }

  /** Each `<` of such a string opens a `<br/>`. */
  lemma AnglesOnlyInBreaksOpen(s: string)
    requires AnglesOnlyInBreaks(s)
    ensures forall i :: 0 <= i < |s| && s[i] == '<' ==> i + |BR| <= |s| && s[i..i + |BR|] == BR
  {
    forall i | 0 <= i < |s| && s[i] == '<'
      ensures i + |BR| <= |s| && s[i..i + |BR|] == BR
    {
      OpenAt(s, i);
    }
  }

  /** Each `>` of such a string closes a `<br/>`. */
  lemma AnglesOnlyInBreaksClose(s: string)
    requires AnglesOnlyInBreaks(s)
    ensures forall i :: 0 <= i < |s| && s[i] == '>' ==> |BR| - 1 <= i && s[i + 1 - |BR|..i + 1] == BR
  {
    forall i | 0 <= i < |s| && s[i] == '>'
      ensures |BR| - 1 <= i && s[i + 1 - |BR|..i + 1] == BR
    {
      CloseAt(s, i);
    }
  }

  /** A string without angle brackets qualifies. */
  lemma {:induction false} PlainHasNoStrayAngles(s: string)
    requires '<' !in s && '>' !in s
    ensures AnglesOnlyInBreaks(s)
    decreases |s|
  {
    if s != [] {
      assert s[0] in s;
      assert forall c :: c in s[1..] ==> c in s;
      PlainHasNoStrayAngles(s[1..]);
    }
  }

  /** Joining two qualifying strings gives a qualifying string. */
  lemma {:induction false} AnglesOnlyInBreaksAppend(a: string, b: string)
    requires AnglesOnlyInBreaks(a) && AnglesOnlyInBreaks(b)
    ensures AnglesOnlyInBreaks(a + b)
    decreases |a|
  {
    if a == [] {
      assert a + b == b;
    } else if StartsWith(a, BR) {
      assert (a + b)[..|BR|] == a[..|BR|];
      assert (a + b)[|BR|..] == a[|BR|..] + b;
      AnglesOnlyInBreaksAppend(a[|BR|..], b);
    } else {
      assert (a + b)[0] == a[0];
      assert (a + b)[1..] == a[1..] + b;
      AnglesOnlyInBreaksAppend(a[1..], b);
    }
  }

  /** A break followed by a qualifying string qualifies. */
  lemma BreakThen(t: string)
    requires AnglesOnlyInBreaks(t)
    ensures AnglesOnlyInBreaks(BR + t)
  {
    assert (BR + t)[..|BR|] == BR;
    assert (BR + t)[|BR|..] == t;
  }

  /** Turning line breaks of bracket-free text into `<br/>` leaves no angle bracket outside a break. */
  lemma {:induction false} NewlinesToBrBreaks(s: string)
    requires '<' !in s && '>' !in s
    ensures AnglesOnlyInBreaks(NewlinesToBr(s))
    decreases |s|
  {
    if s != [] {
      assert forall c :: c in s[1..] ==> c in s;
      if s[0] == '\n' {
        NewlinesToBrBreaks(s[1..]);
        BreakThen(NewlinesToBr(s[1..]));
      } else if |s| >= 2 && s[0] == '\r' && s[1] == '\n' {
        assert forall c :: c in s[2..] ==> c in s;
        NewlinesToBrBreaks(s[2..]);
        BreakThen(NewlinesToBr(s[2..]));
      } else {
        assert s[0] in s;
        NewlinesToBrBreaks(s[1..]);
        PlainHasNoStrayAngles([s[0]]);
        AnglesOnlyInBreaksAppend([s[0]], NewlinesToBr(s[1..]));
      }
    }
  }

  /** Dropping leading characters that are not angle brackets keeps the property. */
  lemma {:induction false} DropPlainPrefix(s: string, k: nat)
    requires AnglesOnlyInBreaks(s) && k <= |s|
    requires forall i | 0 <= i < k :: s[i] != '<' && s[i] != '>'
    ensures AnglesOnlyInBreaks(s[k..])
    decreases k
  {
    if k > 0 {
      assert s[0] != BR[0];
      assert s[1..][k - 1..] == s[k..];
      DropPlainPrefix(s[1..], k - 1);
    }
  }

  /** The marker step keeps every angle bracket inside a break: a break has no `$` for a marker to start on. */
  lemma {:induction false} MarkerStepBreaks(s: string)
    requires AnglesOnlyInBreaks(s)
    ensures AnglesOnlyInBreaks(ReplaceAll(s, LINE_MARKER, BR))
    decreases |s|
  {
    BreakThen([]);
    assert BR + [] == BR;
    if s == [] {
    } else if StartsWith(s, BR) {
      var t := s[|BR|..];
      assert s == BR + t;
      assert forall i | 0 <= i < |BR| :: (BR + t)[i] != LINE_MARKER[0];
      ReplaceAllAppend(BR, t, LINE_MARKER, BR);
      MissingHeadNotContained(BR, LINE_MARKER);
      ReplaceAllAbsent(BR, LINE_MARKER, BR);
      MarkerStepBreaks(t);
      BreakThen(ReplaceAll(t, LINE_MARKER, BR));
    } else if StartsWith(s, LINE_MARKER) {
      DropPlainPrefix(s, |LINE_MARKER|);
      MarkerStepBreaks(s[|LINE_MARKER|..]);
      BreakThen(ReplaceAll(s[|LINE_MARKER|..], LINE_MARKER, BR));
    } else {
      MarkerStepBreaks(s[1..]);
      PlainHasNoStrayAngles([s[0]]);
      AnglesOnlyInBreaksAppend([s[0]], ReplaceAll(s[1..], LINE_MARKER, BR));
    }
  }

  /** One character other than an angle bracket becomes itself, `&emsp;` or `&nbsp;`: none holds a bracket. */
  lemma SpaceEntitiesOfPlain(c: char)
    requires c != '<' && c != '>'
    ensures AnglesOnlyInBreaks(SpaceEntities([c]))
  {
    assert [] + [c] + [] == [c];
    EntitiesHaveNoWhitespace();
    if c == '\t' {
      TabBecomesEmsp([], []);
      assert [] + "\t" + [] == "\t" && [] + EMSP + [] == EMSP;
      PlainHasNoStrayAngles(EMSP);
    } else if IsJsWhitespace(c) {
      OtherWhitespaceBecomesNbsp([], c, []);
      assert [] + NBSP + [] == NBSP;
      PlainHasNoStrayAngles(NBSP);
    } else {
      PlainHasNoStrayAngles([c]);
    }
  }

  /** The entity step keeps every angle bracket inside a break: entities hold no brackets and a break no whitespace. */
  lemma {:induction false} SpaceEntitiesBreaks(s: string)
    requires AnglesOnlyInBreaks(s)
    ensures AnglesOnlyInBreaks(SpaceEntities(s))
    decreases |s|
  {
    if s == [] {
    } else if StartsWith(s, BR) {
      var t := s[|BR|..];
      assert s == BR + t;
      SpaceEntitiesAppend(BR, t);
      EntitiesHaveNoWhitespace();
      SpaceEntitiesBreaks(t);
      BreakThen(SpaceEntities(t));
    } else {
      assert s == [s[0]] + s[1..];
      SpaceEntitiesAppend([s[0]], s[1..]);
      SpaceEntitiesBreaks(s[1..]);
      SpaceEntitiesOfPlain(s[0]);
      AnglesOnlyInBreaksAppend(SpaceEntities([s[0]]), SpaceEntities(s[1..]));
    }
  }

  /**
   * transformHtml escapes the user's angle brackets: every `<` or `>` in its
   * result belongs to a `<br/>` that it inserted.
   */
  lemma TransformHtmlEscapes(str: Option<string>)
    ensures AnglesOnlyInBreaks(TransformHtml(str))
    ensures var r := TransformHtml(str);
      && (forall i :: 0 <= i < |r| && r[i] == '<' ==> i + |BR| <= |r| && r[i..i + |BR|] == BR)
      && (forall i :: 0 <= i < |r| && r[i] == '>' ==> |BR| - 1 <= i && r[i + 1 - |BR|..i + 1] == BR)
  {
    var r := TransformHtml(str);
    if str.Some? && str.value != "" && Trim(str.value) != "" {
      var escaped := EscapeAngles(Trim(str.value));
      NewlinesToBrBreaks(escaped);
      MarkerStepBreaks(NewlinesToBr(escaped));
      SpaceEntitiesBreaks(ReplaceAll(NewlinesToBr(escaped), LINE_MARKER, BR));
    }
    AnglesOnlyInBreaksOpen(r);
    AnglesOnlyInBreaksClose(r);
  }

  /** replaceOperationGroup: replaceLineCharacter followed by transformHtmlCharactor. */
  function ReplaceOperationGroup(str: string): (r: string)
    ensures '<' !in r && '>' !in r
    ensures r == "" <==> AllWhitespace(ReplaceAll(str, LINE_MARKER, " "))
  {
    TransformHtmlCharactor(Some(ReplaceLineCharacter(str)))
  }

  /** A string made only of line markers yields "". */
  lemma MarkersOnlyYieldEmpty(n: nat)
    ensures ReplaceOperationGroup(Repeat(LINE_MARKER, n)) == ""
  {
    MarkersBecomeSpaces(n);
    RepeatAllWhitespace(" ", n);
  }

  lemma {:induction false} RepeatAllWhitespace(s: string, n: nat)
    requires AllWhitespace(s)
    ensures AllWhitespace(Repeat(s, n))
  {
    if n > 0 {
      RepeatAllWhitespace(s, n - 1);
      var r := Repeat(s, n);
      assert r == s + Repeat(s, n - 1);
      forall i | 0 <= i < |r| ensures IsJsWhitespace(r[i]) {
        if i >= |s| {
          assert r[i] == Repeat(s, n - 1)[i - |s|];
        }
      }
    }
  }

  // ---------------------------------------------------------------------------
  // getUrlFileName
  // ---------------------------------------------------------------------------

  /** The first piece of a split on one character is the longest prefix without it. */
  lemma {:induction false} FirstPiece(s: string, c: char)
    ensures var f := Split(s, [c])[0];
      |f| <= |s| && f == s[..|f|] && c !in f && (|f| == |s| || s[|f|] == c)
    decreases |s|
  {
    if !StartsWith(s, [c]) && s != [] {
      FirstPiece(s[1..], c);
    }
  }

  /** The first step of a split on one character. */
  lemma SplitFront(s: string, c: char)
    requires s != []
    ensures s[0] == c ==> Split(s, [c]) == [[]] + Split(s[1..], [c])
    ensures s[0] != c ==> Split(s, [c]) == [[s[0]] + Split(s[1..], [c])[0]] + Split(s[1..], [c])[1..]
  {
    assert StartsWith(s, [c]) <==> s[0] == c;
  }

  /** The last element of a concatenation comes from its non-empty second part. */
  lemma LastOfAppend<T>(x: seq<T>, y: seq<T>)
    requires y != []
    ensures (x + y)[|x + y| - 1] == y[|y| - 1]
  {
  }

  /** The last piece of a split on one character is the longest suffix without it. */
  lemma {:induction false} LastPiece(s: string, c: char)
    ensures var parts := Split(s, [c]); var l := parts[|parts| - 1];
      |l| <= |s| && l == s[|s| - |l|..] && c !in l && (|l| == |s| || s[|s| - |l| - 1] == c)
    decreases |s|
  {
    if s != [] {
      var parts := Split(s, [c]);
      var rest := Split(s[1..], [c]);
      var l := rest[|rest| - 1];
      LastPiece(s[1..], c);
      SplitFront(s, c);
      SuffixOfTail(s, l);
      if s[0] == c {
        LastOfAppend([[]], rest);
        assert parts[|parts| - 1] == l;
      } else if |rest| == 1 {
        SinglePiece(s[1..], c);
        assert parts == [[s[0]] + s[1..]];
        assert s == [s[0]] + s[1..];
        assert parts[|parts| - 1] == s;
      } else {
        LastOfAppend([[s[0]] + rest[0]], rest[1..]);
        assert parts[|parts| - 1] == l;
        SeparatorInSplit(s[1..], c);
        FullSuffix(s[1..], l);
      }
    }
  }

  /** A suffix as long as the string is the string. */
  lemma FullSuffix(t: string, l: string)
    requires |l| <= |t| && l == t[|t| - |l|..]
    ensures |l| == |t| ==> l == t
  {
  }

  /** A suffix of the tail of `s` is a suffix of `s`, preceded by the same character. */
  lemma SuffixOfTail(s: string, l: string)
    requires s != [] && |l| <= |s| - 1 && l == s[1..][|s| - 1 - |l|..]
    ensures l == s[|s| - |l|..]
    ensures |l| < |s| - 1 ==> s[|s| - |l| - 1] == s[1..][|s| - 1 - |l| - 1]
  {
  }

  /** A split into a single piece gives the whole string back. */
  lemma {:induction false} SinglePiece(s: string, c: char)
    ensures |Split(s, [c])| == 1 ==> Split(s, [c])[0] == s
    decreases |s|
  {
    if !StartsWith(s, [c]) && s != [] {
      SinglePiece(s[1..], c);
      assert s == [s[0]] + s[1..];
    }
  }

  /** A split into more than one piece means the separator occurs. */
  lemma {:induction false} SeparatorInSplit(s: string, c: char)
    ensures |Split(s, [c])| > 1 ==> c in s
    decreases |s|
  {
    if !StartsWith(s, [c]) && s != [] {
      SeparatorInSplit(s[1..], c);
      assert c in s[1..] ==> c in s;
    } else if s != [] {
      assert s[0] == c;
    }
  }

  /** `name` sits at position `i` of `href`: after the last `/`, and followed by the end or a `.`. */
  predicate FileNameAt(href: string, name: string, i: int)
  {
    && 0 <= i <= |href| - |name| && href[i..i + |name|] == name
    && (i == 0 || href[i - 1] == '/') && '/' !in href[i..]
    && (i + |name| == |href| || href[i + |name|] == '.')
  }

  /**
   * getUrlFileName with the page's `href` as a parameter:
   * `href.split("/").slice(-1)[0].split(".")[0]`. The name is the text after
   * the last `/`, up to the first `.` after it.
   */
  function GetUrlFileName(href: string): (name: string)
    ensures '/' !in name && '.' !in name
    ensures exists i :: FileNameAt(href, name, i)
  {
    var pieces := Split(href, "/");
    var wholeFileName := pieces[|pieces| - 1];
    var fileName := Split(wholeFileName, ".")[0];
    LastPiece(href, '/');
    FirstPiece(wholeFileName, '.');
    FileNameAtPieces(href, wholeFileName, fileName);
    fileName
  }

  /** A prefix ending at a `.` of a suffix following the last `/` sits there as a file name. */
  lemma FileNameAtPieces(href: string, whole: string, name: string)
    requires |whole| <= |href| && whole == href[|href| - |whole|..] && '/' !in whole
    requires |whole| == |href| || href[|href| - |whole| - 1] == '/'
    requires |name| <= |whole| && name == whole[..|name|]
    requires |name| == |whole| || whole[|name|] == '.'
    ensures '/' !in name && FileNameAt(href, name, |href| - |whole|)
  {
    var i := |href| - |whole|;
    assert href[i..i + |name|] == name;
    assert i + |name| < |href| ==> href[i + |name|] == whole[|name|];
  }

  /**
   * At most one name without `.` sits after the last `/` of `href`, so the
   * ensures of GetUrlFileName determine its result.
   */
  lemma FileNameAtUnique(href: string, a: string, i: int, b: string, j: int)
    requires FileNameAt(href, a, i) && '.' !in a
    requires FileNameAt(href, b, j) && '.' !in b
    ensures i == j && a == b
  {
  }

  /** A name that meets the description is the one getUrlFileName returns. */
  lemma GetUrlFileNameIs(href: string, name: string, i: int)
    requires FileNameAt(href, name, i) && '.' !in name
    ensures GetUrlFileName(href) == name
  {
    var r := GetUrlFileName(href);
    var j :| FileNameAt(href, r, j);
    FileNameAtUnique(href, r, j, name, i);
  }

  /**
   * An address made of a directory ending in `/`, a name without `/` or `.`,
   * and an extension starting with `.` has that name as its file name.
   */
  lemma GetUrlFileNameOfParts(dir: string, name: string, ext: string)
    requires dir != [] && dir[|dir| - 1] == '/'
    requires '/' !in name && '.' !in name
    requires '/' !in ext && ext != [] && ext[0] == '.'
    ensures GetUrlFileName(dir + name + ext) == name
  {
    var href := dir + name + ext;
    assert href[|dir|..|dir| + |name|] == name;
    assert href[|dir|..] == name + ext;
    assert href[|dir| + |name|] == ext[0];
    assert href[|dir| - 1] == dir[|dir| - 1];
    GetUrlFileNameIs(href, name, |dir|);
  }

  /** The address documented with getUrlFileName, written as its three parts. */
  const PROPOSED_TASK_URL: string := "http://localhost:5565/proposed-task/" + "proposed-task" + ".html"

  /**
   * The example documented with getUrlFileName:
   * "http://localhost:5565/proposed-task/proposed-task.html" gives "proposed-task".
   */
  lemma ProposedTaskPageName()
    ensures GetUrlFileName(PROPOSED_TASK_URL) == "proposed-task"
  {
    GetUrlFileNameOfParts("http://localhost:5565/proposed-task/", "proposed-task", ".html");
  }

  // ---------------------------------------------------------------------------
  // commonFetchData
  // ---------------------------------------------------------------------------

  /**
   * The test `response.ERRMSG == "" || response.ERRMSG == null`, each side with
   * JavaScript's loose equality. It holds exactly when the message is falsy.
   */
  function NoErrorMessage(errMsg: Value): (ok: bool)
    ensures ok <==> !Truthy(errMsg)
    ensures ok <==> errMsg in {Undefined, Null, Str(""), Num(0)}
  {
    LooselyEqualsEmptyString(errMsg) || LooselyEqualsNull(errMsg)
  }

  datatype Outcome<T> = Success(body: T) | ErrorReported(message: Value)

  /**
   * commonFetchData's handling of a response: the success callback receives the
   * body exactly when there is no error message; otherwise the message goes to
   * the error reporter and the callback never runs.
   */
  function CommonFetchData<T>(errMsg: Value, body: T): (o: Outcome<T>)
    ensures o.Success? <==> NoErrorMessage(errMsg)
    ensures o.Success? ==> o.body == body
    ensures o.ErrorReported? ==> o.message == errMsg && Truthy(errMsg)
  {
    if NoErrorMessage(errMsg) then Success(body) else ErrorReported(errMsg)
  }

  // ---------------------------------------------------------------------------
  // mapKeys
  // ---------------------------------------------------------------------------

  /** The object mapKeys has built after its first `n` rounds. */
  function MappedPrefix(o: Record, origKeys: seq<string>, destKeys: seq<string>, n: nat): (m: Record)
    requires n <= |origKeys| <= |destKeys|
    ensures forall key :: key in m <==> key in destKeys[..n]
  {
    if n == 0 then map[]
    else
      assert destKeys[..n] == destKeys[..n - 1] + [destKeys[n - 1]];
      MappedPrefix(o, origKeys, destKeys, n - 1)[destKeys[n - 1] := Get(o, origKeys[n - 1])]
  }

  /** No round after round `i` (of the first `n`) writes the destination key of round `i` again. */
  predicate LastWrite(destKeys: seq<string>, n: nat, i: nat)
    requires n <= |destKeys|
  {
    forall j :: i < j < n ==> destKeys[j] != destKeys[i]
  }

  /** What mapKeys returns: `{}` for null or undefined, else every round done. */
  function MappedObject(origObject: Option<Record>, origKeys: seq<string>, destKeys: seq<string>): (m: Record)
    requires |origKeys| <= |destKeys|
    ensures origObject.None? ==> m == map[]
    ensures forall key :: key in m <==> origObject.Some? && key in destKeys[..|origKeys|]
  {
    if origObject.None? then map[] else MappedPrefix(origObject.value, origKeys, destKeys, |origKeys|)
  }

  /** A destination key not written again later holds the value read from its source key. */
  lemma {:induction false} MappedPrefixAt(o: Record, origKeys: seq<string>, destKeys: seq<string>, n: nat, i: nat)
    requires n <= |origKeys| <= |destKeys| && i < n
    requires LastWrite(destKeys, n, i)
    ensures MappedPrefix(o, origKeys, destKeys, n)[destKeys[i]] == Get(o, origKeys[i])
  {
    if i < n - 1 {
      MappedPrefixAt(o, origKeys, destKeys, n - 1, i);
    }
  }

  /**
   * mapKeys: the keys of the result are the destination keys, and each one
   * takes the value read (possibly undefined) from the source key at the same
   * position, the last write winning when a destination key repeats.
   */
  method MapKeys(origObject: Option<Record>, origKeys: seq<string>, destKeys: seq<string>) returns (mappedObject: Record)
    requires |origKeys| <= |destKeys|
    ensures mappedObject == MappedObject(origObject, origKeys, destKeys)
    ensures origObject.None? ==> mappedObject == map[]
    ensures origObject.Some? ==> forall key :: key in mappedObject <==> key in destKeys[..|origKeys|]
    ensures origObject.Some? ==> forall i :: 0 <= i < |origKeys| && LastWrite(destKeys, |origKeys|, i) ==>
                                   mappedObject[destKeys[i]] == Get(origObject.value, origKeys[i])
  {
    var i := 0;
    mappedObject := map[];
    if origObject.None? {
      return;
    }
    while i < |origKeys|
      invariant 0 <= i <= |origKeys|
      invariant mappedObject == MappedPrefix(origObject.value, origKeys, destKeys, i)
    {
      mappedObject := mappedObject[destKeys[i] := Get(origObject.value, origKeys[i])];
      i := i + 1;
    }
    forall i | 0 <= i < |origKeys| && LastWrite(destKeys, |origKeys|, i)
      ensures mappedObject[destKeys[i]] == Get(origObject.value, origKeys[i])
    {
      MappedPrefixAt(origObject.value, origKeys, destKeys, |origKeys|, i);
    }
  }
}
