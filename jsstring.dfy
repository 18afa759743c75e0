/**
 * The JavaScript string operations the pages rely on, with the semantics of
 * the ECMAScript built-ins: `split` and `join` on a one-character separator,
 * `trim`, `toLowerCase` (restricted to ASCII letters), `includes`,
 * `startsWith` and the decimal rendering of a non-negative integer.
 */
module JsString {

  // ---------------------------------------------------------------------------
  // split / join
  // ---------------------------------------------------------------------------

  /** `s.split(sep)`: no normalisation, `""` splits to `[""]`, `"a//b"` to `["a", "", "b"]`. */
  function Split(s: string, sep: char): (parts: seq<string>)
    ensures |parts| >= 1
  {
    if |s| == 0 then [""]
    else
      var rest := Split(s[1..], sep);
      if s[0] == sep then [""] + rest
      else [[s[0]] + rest[0]] + rest[1..]
  }

  /** `parts.join(sep)`. */
  function Join(parts: seq<string>, sep: char): string
  {
    if |parts| == 0 then ""
    else if |parts| == 1 then parts[0]
    else parts[0] + [sep] + Join(parts[1..], sep)
  }

  /** `parts[parts.length - 1]`, the element `pop()` returns. */
  function Last(parts: seq<string>): string
    requires |parts| >= 1
  {
    parts[|parts| - 1]
  }

  /** No piece of a split contains the separator. */
  lemma {:induction false} SplitHasNoSeparator(s: string, sep: char)
    ensures forall i | 0 <= i < |Split(s, sep)| :: sep !in Split(s, sep)[i]
  {
    if |s| > 0 {
      SplitHasNoSeparator(s[1..], sep);
      var rest := Split(s[1..], sep);
      if s[0] != sep {
        assert sep !in rest[0];
        assert Split(s, sep) == [[s[0]] + rest[0]] + rest[1..];
        forall i | 0 <= i < |Split(s, sep)| ensures sep !in Split(s, sep)[i] {
          if i > 0 {
            assert Split(s, sep)[i] == rest[i];
          }
        }
      }
    }
  }

  /** Joining the pieces of a split gives the string back. */
  lemma {:induction false} JoinSplit(s: string, sep: char)
    ensures Join(Split(s, sep), sep) == s
  {
    if |s| > 0 {
      JoinSplit(s[1..], sep);
      var rest := Split(s[1..], sep);
      if s[0] == sep {
        assert Split(s, sep) == [""] + rest;
        assert ([""] + rest)[1..] == rest;
        assert Join([""] + rest, sep) == "" + [sep] + Join(rest, sep);
        assert s == [s[0]] + s[1..];
      } else if |rest| == 1 {
        assert Split(s, sep) == [[s[0]] + rest[0]];
        assert s == [s[0]] + s[1..];
      } else {
        var parts := Split(s, sep);
        assert parts == [[s[0]] + rest[0]] + rest[1..];
        assert parts[1..] == rest[1..];
        assert Join(rest, sep) == rest[0] + [sep] + Join(rest[1..], sep);
        assert Join(parts, sep) == [s[0]] + rest[0] + [sep] + Join(rest[1..], sep);
        assert s == [s[0]] + s[1..];
      }
    }
  }

  /** A string without the separator splits to itself alone. */
  lemma {:induction false} SplitWithoutSeparator(s: string, sep: char)
    requires sep !in s
    ensures Split(s, sep) == [s]
  {
    if |s| > 0 {
      SplitWithoutSeparator(s[1..], sep);
      assert s == [s[0]] + s[1..];
    }
  }

  /** A string splits to a single piece exactly when it has no separator. */
  lemma {:induction false} SplitSingleIff(s: string, sep: char)
    ensures |Split(s, sep)| == 1 <==> sep !in s
  {
    if sep !in s {
      SplitWithoutSeparator(s, sep);
    } else {
      var i :| 0 <= i < |s| && s[i] == sep;
      SplitConcat(s[..i], s[i + 1..], sep);
      assert s == s[..i] + [sep] + s[i + 1..];
    }
  }

  /** Splitting at a separator occurrence splits both sides independently. */
  lemma {:induction false} SplitConcat(a: string, b: string, sep: char)
    ensures Split(a + [sep] + b, sep) == Split(a, sep) + Split(b, sep)
  {
    var s := a + [sep] + b;
    if |a| == 0 {
      assert s == [sep] + b;
      assert s[1..] == b;
    } else {
      var tail := a[1..] + [sep] + b;
      assert s == [a[0]] + tail;
      SplitConcat(a[1..], b, sep);
      SplitStep(a[0], tail, sep);
      SplitStep(a[0], a[1..], sep);
      assert a == [a[0]] + a[1..];
      if a[0] != sep {
        GlueFirst([a[0]], Split(a[1..], sep), Split(b, sep));
      }
    }
  }

  /** Gluing a prefix onto the first piece commutes with appending more pieces. */
  lemma GlueFirst(c: string, x: seq<string>, y: seq<string>)
    requires |x| >= 1
    ensures [c + (x + y)[0]] + (x + y)[1..] == [c + x[0]] + x[1..] + y
  {
    assert (x + y)[0] == x[0];
    assert (x + y)[1..] == x[1..] + y;
  }

  /** One unfolding of `Split` on a string given as its first character and the rest. */
  lemma SplitStep(c: char, t: string, sep: char)
    ensures Split([c] + t, sep) == if c == sep then [""] + Split(t, sep)
                                   else [[c] + Split(t, sep)[0]] + Split(t, sep)[1..]
  {
    assert ([c] + t)[1..] == t;
  }

  /** Joining pieces free of the separator and splitting again gives the pieces back. */
  lemma {:induction false} SplitJoin(parts: seq<string>, sep: char)
    requires |parts| >= 1
    requires forall i | 0 <= i < |parts| :: sep !in parts[i]
    ensures Split(Join(parts, sep), sep) == parts
  {
    SplitWithoutSeparator(parts[0], sep);
    if |parts| > 1 {
      SplitJoin(parts[1..], sep);
      SplitConcat(parts[0], Join(parts[1..], sep), sep);
      assert parts == [parts[0]] + parts[1..];
    }
  }

  /** Joining with one more piece appends the separator and that piece. */
  lemma {:induction false} JoinSnoc(parts: seq<string>, last: string, sep: char)
    requires |parts| >= 1
    ensures Join(parts + [last], sep) == Join(parts, sep) + [sep] + last
  {
    if |parts| > 1 {
      JoinSnoc(parts[1..], last, sep);
      assert (parts + [last])[1..] == parts[1..] + [last];
    } else {
      assert (parts + [last])[1..] == [last];
    }
  }

  /** Two separator-free pieces around one separator split back into those two pieces. */
  lemma SplitTwo(a: string, b: string, sep: char)
    requires sep !in a && sep !in b
    ensures Split(a + [sep] + b, sep) == [a, b]
  {
    SplitConcat(a, b, sep);
    SplitWithoutSeparator(a, sep);
    SplitWithoutSeparator(b, sep);
  }

  /** The piece `pop()` takes from a split is where the string ends. */
  lemma LastPieceEnds(s: string, sep: char)
    ensures EndsWith(s, Last(Split(s, sep)))
  {
    var parts := Split(s, sep);
    JoinSplit(s, sep);
    if |parts| > 1 {
      var init := parts[..|parts| - 1];
      assert parts == init + [Last(parts)];
      JoinSnoc(init, Last(parts), sep);
    }
  }

  // ---------------------------------------------------------------------------
  // trim
  // ---------------------------------------------------------------------------

  /** ECMAScript LineTerminator code points. */
  predicate IsLineTerminator(c: char)
  {
    c == '\n' || c == '\r' || c == '\U{2028}' || c == '\U{2029}'
  }

  /** What `String.prototype.trim` strips: WhiteSpace (including every space
      separator of the Unicode tables) and LineTerminator code points. */
  predicate IsJsWhitespace(c: char)
  {
    || c == '\t' || c == '\U{000B}' || c == '\U{000C}' || c == ' '
    || c == '\U{00A0}' || c == '\U{FEFF}' || c == '\U{1680}'
    || ('\U{2000}' <= c <= '\U{200A}')
    || c == '\U{202F}' || c == '\U{205F}' || c == '\U{3000}'
    || IsLineTerminator(c)
  }

  /** Drops leading whitespace: the result is the suffix that starts at the first non-whitespace character. */
  function TrimStart(s: string): (r: string)
    ensures |r| <= |s| && r == s[|s| - |r|..]
    ensures r == [] || !IsJsWhitespace(r[0])
    ensures forall i | 0 <= i < |s| - |r| :: IsJsWhitespace(s[i])
  {
    if |s| > 0 && IsJsWhitespace(s[0]) then TrimStart(s[1..]) else s
  }

  /** Drops trailing whitespace: the result is the prefix that ends at the last non-whitespace character. */
  function TrimEnd(s: string): (r: string)
    ensures |r| <= |s| && r == s[..|r|]
    ensures r == [] || !IsJsWhitespace(r[|r| - 1])
    ensures forall i | |r| <= i < |s| :: IsJsWhitespace(s[i])
  {
    if |s| > 0 && IsJsWhitespace(s[|s| - 1]) then TrimEnd(s[..|s| - 1]) else s
  }

  /** `s.trim()`: a slice of `s` with no whitespace at either end, empty exactly when `s` is all whitespace. */
  function Trim(s: string): string
  {
    TrimEnd(TrimStart(s))
  }

  /** What `Trim` promises: see its doc comment. */
  lemma TrimSpec(s: string)
    ensures var r := Trim(s);
      && (r == [] <==> forall i | 0 <= i < |s| :: IsJsWhitespace(s[i]))
      && (r != [] ==> !IsJsWhitespace(r[0]) && !IsJsWhitespace(r[|r| - 1]))
      && Includes(s, r)
  {
    TrimIsSlice(s);
    TrimEmptyIff(s);
    TrimEnds(s);
  }

  /** The trimmed string occurs in `s` where the leading whitespace ends. */
  lemma TrimIsSlice(s: string)
    ensures OccursAt(s, Trim(s), |s| - |TrimStart(s)|) && Includes(s, Trim(s))
  {
    var t := TrimStart(s);
    var r := TrimEnd(t);
    var k := |s| - |t|;
    assert t == s[k..] && r == t[..|r|];
    assert s[k..k + |r|] == s[k..][..|r|];
    assert OccursAt(s, r, k);
  }

  lemma TrimEmptyIff(s: string)
    ensures Trim(s) == [] <==> forall i | 0 <= i < |s| :: IsJsWhitespace(s[i])
  {
    var t := TrimStart(s);
    var k := |s| - |t|;
    TrimIsSlice(s);
    if Trim(s) != [] {
      assert s[k] == Trim(s)[0];
    }
  }

  lemma TrimEnds(s: string)
    ensures Trim(s) != [] ==> !IsJsWhitespace(Trim(s)[0]) && !IsJsWhitespace(Trim(s)[|Trim(s)| - 1])
  {
    var t := TrimStart(s);
    var r := TrimEnd(t);
    if r != [] {
      assert r[0] == t[0];
    }
  }

  // ---------------------------------------------------------------------------
  // case folding and searching
  // ---------------------------------------------------------------------------

  /** Lower-cases an ASCII capital; every other character is left as it is. */
  function LowerChar(c: char): char
  {
    if 'A' <= c <= 'Z' then (c as int + 32) as char else c
  }

  /** `s.toLowerCase()` restricted to ASCII letters. */
  function LowerAscii(s: string): (r: string)
    ensures |r| == |s|
    ensures forall i | 0 <= i < |s| :: r[i] == LowerChar(s[i])
  {
    seq(|s|, i requires 0 <= i < |s| => LowerChar(s[i]))
  }

  /** `t` occurs in `s` starting at index `i`. */
  predicate OccursAt(s: string, t: string, i: nat)
  {
    i + |t| <= |s| && s[i..i + |t|] == t
  }

  /** `s.includes(t)`. */
  predicate Includes(s: string, t: string)
  {
    exists i | 0 <= i <= |s| :: OccursAt(s, t, i)
  }

  /** Every string includes the empty string. */
  lemma IncludesEmpty(s: string)
    ensures Includes(s, "")
  {
    assert OccursAt(s, "", 0);
  }

  /** An occurrence of an occurrence is an occurrence. */
  lemma IncludesTransitive(a: string, b: string, c: string)
    requires Includes(a, b) && Includes(b, c)
    ensures Includes(a, c)
  {
    var i :| 0 <= i <= |a| && OccursAt(a, b, i);
    var j :| 0 <= j <= |b| && OccursAt(b, c, j);
    assert forall k | 0 <= k < |b| :: a[i + k] == b[k];
    assert forall k | 0 <= k < |c| :: b[j + k] == c[k];
    assert a[i + j..i + j + |c|] == c;
    assert OccursAt(a, c, i + j);
  }

  /** Lower-casing both sides keeps an occurrence. */
  lemma LowerAsciiKeepsIncludes(s: string, t: string)
    requires Includes(s, t)
    ensures Includes(LowerAscii(s), LowerAscii(t))
  {
    var i :| 0 <= i <= |s| && OccursAt(s, t, i);
    assert forall k | 0 <= k < |t| :: t[k] == s[i + k];
    assert LowerAscii(s)[i..i + |t|] == LowerAscii(t);
    assert OccursAt(LowerAscii(s), LowerAscii(t), i);
  }

  /** `s.startsWith(p)`. */
  predicate StartsWith(s: string, p: string)
  {
    |p| <= |s| && s[..|p|] == p
  }

  /** `s.endsWith(p)`. */
  predicate EndsWith(s: string, p: string)
  {
    |p| <= |s| && s[|s| - |p|..] == p
  }

  // ---------------------------------------------------------------------------
  // numbers as text
  // ---------------------------------------------------------------------------

  function DigitChar(d: nat): (c: char)
    requires d < 10
    ensures '0' <= c <= '9'
  {
    ('0' as int + d) as char
  }

  /** The decimal text of a non-negative integer, as a template literal renders it. */
  function Decimal(n: nat): (r: string)
    ensures |r| >= 1
    ensures forall i | 0 <= i < |r| :: '0' <= r[i] <= '9'
  {
    if n < 10 then [DigitChar(n)] else Decimal(n / 10) + [DigitChar(n % 10)]
  }
}
