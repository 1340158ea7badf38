/**
 * The string operations the modelled code calls: `String.Split(char)`,
 * `String.Join`, `Trim`, `ToUpper`/`ToLower`, `EndsWith` and `Contains`.
 */
module Text {

  /** `string.Join(sep, parts)`: the parts with one separator between neighbours. */
  function Join(parts: seq<string>, sep: char): string
  {
    if parts == [] then ""
    else if |parts| == 1 then parts[0]
    else parts[0] + [sep] + Join(parts[1..], sep)
  }

  /** `s.Split(sep)`: the pieces between separators; always at least one piece. */
  function Split(s: string, sep: char): (r: seq<string>)
    ensures |r| >= 1
    decreases |s|
  {
    if |s| == 0 then [""]
    else
      var rest := Split(s[1..], sep);
      if s[0] == sep then [""] + rest else [[s[0]] + rest[0]] + rest[1..]
  }

  /** No piece produced by `Split` contains the separator. */
  lemma {:induction false} SplitPiecesFree(s: string, sep: char)
    ensures forall k :: 0 <= k < |Split(s, sep)| ==> sep !in Split(s, sep)[k]
    decreases |s|
  {
    if |s| > 0 {
      SplitPiecesFree(s[1..], sep);
    }
  }

  /** Joining the pieces of a split gives back the original string. */
  lemma {:induction false} JoinSplit(s: string, sep: char)
    ensures Join(Split(s, sep), sep) == s
    decreases |s|
  {
    if |s| > 0 {
      var rest := Split(s[1..], sep);
      JoinSplit(s[1..], sep);
      if s[0] == sep {
        assert ([""] + rest)[1..] == rest;
      } else {
        var r := [[s[0]] + rest[0]] + rest[1..];
        assert r[1..] == rest[1..];
        if |rest| > 1 {
          assert rest == [rest[0]] + rest[1..];
        }
      }
    }
  }

  lemma {:induction false} SplitWithoutSep(p: string, sep: char)
    requires sep !in p
    ensures Split(p, sep) == [p]
    decreases |p|
  {
    if |p| > 0 {
      SplitWithoutSep(p[1..], sep);
      assert [p[0]] + p[1..] == p;
    }
  }

  lemma {:induction false} SplitAfterPiece(p: string, sep: char, t: string)
    requires sep !in p
    ensures Split(p + [sep] + t, sep) == [p] + Split(t, sep)
    decreases |p|
  {
    var s := p + [sep] + t;
    if |p| == 0 {
      assert s[1..] == t;
    } else {
      assert s[1..] == p[1..] + [sep] + t;
      SplitAfterPiece(p[1..], sep, t);
      assert [p[0]] + p[1..] == p;
    }
  }

  /** Splitting a join of separator-free parts gives back the parts. */
  lemma {:induction false} SplitJoin(parts: seq<string>, sep: char)
    requires |parts| >= 1
    requires forall k :: 0 <= k < |parts| ==> sep !in parts[k]
    ensures Split(Join(parts, sep), sep) == parts
    decreases |parts|
  {
    if |parts| == 1 {
      SplitWithoutSep(parts[0], sep);
    } else {
      SplitJoin(parts[1..], sep);
      SplitAfterPiece(parts[0], sep, Join(parts[1..], sep));
      assert [parts[0]] + parts[1..] == parts;
    }
  }

  /** Position of the first occurrence of `c` in `s`. */
  function FirstIndex(s: string, c: char): (i: nat)
    requires c in s
    ensures i < |s| && s[i] == c
    decreases |s|
  {
    if s[0] == c then 0 else 1 + FirstIndex(s[1..], c)
  }

  lemma {:induction false} FirstIndexAfterHead(a: string, x: string, sep: char)
    requires sep !in a
    ensures FirstIndex(a + [sep] + x, sep) == |a|
    decreases |a|
  {
    if |a| > 0 {
      assert (a + [sep] + x)[1..] == a[1..] + [sep] + x;
      FirstIndexAfterHead(a[1..], x, sep);
    }
  }

  /**
   * Two strings that share a separator-free head before their first
   * separator agree on the head and on the tail.
   */
  lemma HeadBeforeSeparator(a: string, x: string, b: string, y: string, sep: char)
    requires sep !in a && sep !in b
    requires a + [sep] + x == b + [sep] + y
    ensures a == b && x == y
  {
    var s := a + [sep] + x;
    var s' := b + [sep] + y;
    FirstIndexAfterHead(a, x, sep);
    FirstIndexAfterHead(b, y, sep);
    assert a == s[..|a|] && b == s'[..|b|];
    assert x == s[|a| + 1..] && y == s'[|b| + 1..];
  }

  /** Characters `Char.IsWhiteSpace` accepts among the Latin-1 range. */
  predicate IsWhiteSpace(c: char)
  {
    c == ' ' || c == '\t' || c == '\n' || c == '\U{000B}' || c == '\U{000C}' || c == '\r'
    || c == '\U{0085}' || c == '\U{00A0}'
  }

  predicate AllWhiteSpace(s: string)
  {
    forall i :: 0 <= i < |s| ==> IsWhiteSpace(s[i])
  }

  /** `s.Trim()`: white space removed from both ends, the inside kept. */
  function Trim(s: string): (r: string)
    ensures |r| <= |s|
    ensures r == [] || (!IsWhiteSpace(r[0]) && !IsWhiteSpace(r[|r| - 1]))
    decreases |s|
  {
    if |s| > 0 && IsWhiteSpace(s[0]) then Trim(s[1..])
    else if |s| > 0 && IsWhiteSpace(s[|s| - 1]) then Trim(s[..|s| - 1])
    else s
  }

  /** Trimming leaves nothing exactly when the string is all white space. */
  lemma {:induction false} TrimBlank(s: string)
    ensures AllWhiteSpace(s) <==> Trim(s) == []
    decreases |s|
  {
    if |s| > 0 && IsWhiteSpace(s[0]) {
      TrimBlank(s[1..]);
      assert AllWhiteSpace(s) <==> AllWhiteSpace(s[1..]) by {
        if AllWhiteSpace(s[1..]) {
          forall i | 0 <= i < |s| ensures IsWhiteSpace(s[i]) {
            if i > 0 {
              assert s[i] == s[1..][i - 1];
            }
          }
        }
      }
    } else if |s| > 0 && IsWhiteSpace(s[|s| - 1]) {
      TrimBlank(s[..|s| - 1]);
      assert !AllWhiteSpace(s) && !AllWhiteSpace(s[..|s| - 1]) by {
        assert !IsWhiteSpace(s[0]);
        assert s[..|s| - 1][0] == s[0] || |s| == 1;
      }
    }
  }

  /** A string that neither starts nor ends with white space is its own trim. */
  lemma TrimUnchanged(s: string)
    requires s == [] || (!IsWhiteSpace(s[0]) && !IsWhiteSpace(s[|s| - 1]))
    ensures Trim(s) == s
  {
  }

  /** White space added at either end is trimmed away. */
  lemma {:induction false} TrimPadded(s: string, c: char)
    requires IsWhiteSpace(c)
    ensures Trim([c] + s) == Trim(s)
    ensures Trim(s + [c]) == Trim(s)
    decreases |s|
  {
    assert ([c] + s)[1..] == s;
    if |s| > 0 && IsWhiteSpace(s[0]) {
      assert (s + [c])[1..] == s[1..] + [c];
      TrimPadded(s[1..], c);
    } else if s != [] {
      assert (s + [c])[..|s|] == s;
    }
  }

  function UpperChar(c: char): char
  {
    if 'a' <= c <= 'z' then (c as int - 'a' as int + 'A' as int) as char else c
  }

  function LowerChar(c: char): char
  {
    if 'A' <= c <= 'Z' then (c as int - 'A' as int + 'a' as int) as char else c
  }

  /** `s.ToUpper()`, restricted to the letters a-z. */
  function ToUpper(s: string): (r: string)
    ensures |r| == |s|
  {
    seq(|s|, i requires 0 <= i < |s| => UpperChar(s[i]))
  }

  /** Upper-casing a string already upper- or lower-cased gives its upper case. */
  lemma ToUpperCased(s: string)
    ensures ToUpper(ToUpper(s)) == ToUpper(s)
    ensures ToUpper(ToLower(s)) == ToUpper(s)
  {
    assert forall i :: 0 <= i < |s| ==> ToUpper(ToUpper(s))[i] == ToUpper(s)[i];
    assert forall i :: 0 <= i < |s| ==> ToUpper(ToLower(s))[i] == ToUpper(s)[i];
  }

  /** Upper-casing keeps white space added at either end. */
  lemma ToUpperPadded(s: string, c: char)
    requires IsWhiteSpace(c)
    ensures ToUpper([c] + s + [c]) == [c] + ToUpper(s) + [c]
  {
    assert forall i :: 0 <= i < |s| + 2 ==> ToUpper([c] + s + [c])[i] == ([c] + ToUpper(s) + [c])[i];
  }

  /** `s.ToLower()`, restricted to the letters A-Z. */
  function ToLower(s: string): (r: string)
    ensures |r| == |s|
  {
    seq(|s|, i requires 0 <= i < |s| => LowerChar(s[i]))
  }

  /** `s.EndsWith(suffix)`. */
  predicate EndsWith(s: string, suffix: string)
  {
    |suffix| <= |s| && s[|s| - |suffix|..] == suffix
  }

  /** `s.Contains(pattern)`: `pattern` occurs in `s` as a contiguous piece. */
  predicate Contains(s: string, pattern: string)
    decreases |s|
  {
    pattern <= s || (|s| > 0 && Contains(s[1..], pattern))
  }
}
