/** The few operations on Python `str` values that the message creator and its
    test fixtures use: `in`, `replace`, `split(',')` and `strip()`, each with the
    semantics Python gives it. */
module Text {

  /** Python's `w in s`: `w` occurs in `s` as a contiguous piece. The empty
      string occurs in every string. */
  predicate Contains(s: string, w: string)
    decreases |s|
  {
    w <= s || (|s| > 0 && Contains(s[1..], w))
  }

  /** Whatever surrounds `w`, it is still found. */
  lemma {:induction false} ContainsInfix(a: string, w: string, b: string)
    ensures Contains(a + w + b, w)
  {
    if a == [] {
      assert a + w + b == w + b;
    } else {
      ContainsInfix(a[1..], w, b);
      assert (a + w + b)[1..] == a[1..] + w + b;
    }
  }

  /** Python's `s.replace(pat, rep)` for a non-empty `pat`: scanning from the
      left, every occurrence that does not overlap an earlier replaced one is
      replaced by `rep`. */
  function Replace(s: string, pat: string, rep: string): string
    requires |pat| > 0
    decreases |s|
  {
    if pat <= s then rep + Replace(s[|pat|..], pat, rep)
    else if s == [] then []
    else [s[0]] + Replace(s[1..], pat, rep)
  }

  /** Text without an occurrence is left as it is. */
  lemma {:induction false} ReplaceAbsent(s: string, pat: string, rep: string)
    requires |pat| > 0 && !Contains(s, pat)
    ensures Replace(s, pat, rep) == s
    decreases |s|
  {
    if s != [] {
      ReplaceAbsent(s[1..], pat, rep);
    }
  }

  /** The first occurrence is replaced and the text before it is kept, provided
      `pat` cannot overlap itself (its first character does not recur in it). */
  lemma {:induction false} ReplaceFirst(a: string, pat: string, rep: string, b: string)
    requires |pat| > 0 && pat[0] !in pat[1..] && !Contains(a, pat)
    ensures Replace(a + pat + b, pat, rep) == a + rep + Replace(b, pat, rep)
    decreases |a|
  {
    if a == [] {
      ReplaceAtMatch(pat + b, pat, rep);
      assert a + pat + b == pat + b && (pat + b)[|pat|..] == b;
    } else {
      ContainsTail(a, pat);
      ReplaceFirst(a[1..], pat, rep, b);
      ReplaceFirstStep(a, pat, rep, b);
    }
  }

  /** One character before the occurrence is copied. */
  lemma ReplaceFirstStep(a: string, pat: string, rep: string, b: string)
    requires |pat| > 0 && pat[0] !in pat[1..] && a != [] && !(pat <= a)
    requires Replace(a[1..] + pat + b, pat, rep) == a[1..] + rep + Replace(b, pat, rep)
    ensures Replace(a + pat + b, pat, rep) == a + rep + Replace(b, pat, rep)
  {
    var s := a + pat + b;
    NoEarlyMatch(a, pat, b);
    ReplaceCopies(s, pat, rep);
    assert s[1..] == a[1..] + pat + b;
    var x := Replace(b, pat, rep);
    assert [a[0]] + (a[1..] + rep + x) == a + rep + x;
  }

  lemma ReplaceAtMatch(s: string, pat: string, rep: string)
    requires |pat| > 0 && pat <= s
    ensures Replace(s, pat, rep) == rep + Replace(s[|pat|..], pat, rep)
  {
  }

  lemma ReplaceCopies(s: string, pat: string, rep: string)
    requires |pat| > 0 && s != [] && !(pat <= s)
    ensures Replace(s, pat, rep) == [s[0]] + Replace(s[1..], pat, rep)
  {
  }

  lemma ContainsTail(a: string, pat: string)
    requires a != [] && !Contains(a, pat)
    ensures !(pat <= a) && !Contains(a[1..], pat)
  {
  }

  /** Text without `pat`'s first character is copied unchanged. */
  lemma {:induction false} ReplaceSkips(a: string, b: string, pat: string, rep: string)
    requires |pat| > 0 && pat[0] !in a
    ensures Replace(a + b, pat, rep) == a + Replace(b, pat, rep)
    decreases |a|
  {
    var s := a + b;
    if a == [] {
      assert s == b;
    } else {
      assert s[0] == a[0];
      assert !(pat <= s);
      assert s[1..] == a[1..] + b;
      ReplaceSkips(a[1..], b, pat, rep);
      assert [a[0]] + (a[1..] + Replace(b, pat, rep)) == a + Replace(b, pat, rep);
    }
  }

  /** A non-self-overlapping `pat` placed after text free of it is not matched
      earlier than where it was placed. */
  lemma NoEarlyMatch(a: string, pat: string, b: string)
    requires |pat| > 0 && pat[0] !in pat[1..] && a != [] && !(pat <= a)
    ensures !(pat <= a + pat + b)
  {
    var s := a + pat + b;
    if |a| >= |pat| {
      assert s[..|pat|] == a[..|pat|];
    } else {
      assert s[|a|] == pat[0];
      assert pat[1..][|a| - 1] == pat[|a|];
    }
  }

  /** When replacing `pat` by `rep` can neither leave an occurrence of `pat`
      behind nor create one where `rep` meets the surrounding text. */
  predicate Clears(pat: string, rep: string)
  {
    && |pat| > 0 && |rep| > 0
    && rep[0] !in pat[1..]
    && pat[0] !in rep[1..]
    && !(rep <= pat) && !(pat <= rep)
  }

  /** A prefix of the replaced text that avoids `rep`'s first character was
      already a prefix of the original text. */
  lemma {:induction false} PrefixSurvives(t: string, w: string, pat: string, rep: string)
    requires |pat| > 0 && |rep| > 0 && rep[0] !in w
    ensures w <= Replace(t, pat, rep) ==> w <= t
    decreases |t|
  {
    if w != [] {
      if pat <= t {
        assert Replace(t, pat, rep)[0] == rep[0];
        assert w[0] in w;
      } else if t != [] {
        PrefixSurvives(t[1..], w[1..], pat, rep);
        var r := Replace(t[1..], pat, rep);
        if w <= [t[0]] + r {
          assert w[1..] <= r;
        }
      }
    }
  }

  /** `rep[k..]` put in front of text without an occurrence creates none. */
  lemma {:induction false} NoneAcrossReplacement(rep: string, r: string, pat: string, k: nat)
    requires Clears(pat, rep) && k <= |rep| && !Contains(r, pat)
    ensures !Contains(rep[k..] + r, pat)
    decreases |rep| - k
  {
    if k < |rep| {
      NoneAcrossReplacement(rep, r, pat, k + 1);
      var x := rep[k..] + r;
      assert x[1..] == rep[k + 1..] + r;
      if k == 0 {
        if |pat| <= |rep| {
          assert x[..|pat|] == rep[..|pat|];
        } else {
          assert x[..|rep|] == rep;
        }
      } else {
        assert rep[1..][k - 1] == rep[k];
      }
    } else {
      assert rep[k..] + r == r;
    }
  }

  /** Under `Clears`, no occurrence of `pat` remains after the replacement. */
  lemma {:induction false} ReplaceLeavesNone(s: string, pat: string, rep: string)
    requires Clears(pat, rep)
    ensures !Contains(Replace(s, pat, rep), pat)
    decreases |s|
  {
    if pat <= s {
      ReplaceLeavesNone(s[|pat|..], pat, rep);
      NoneAcrossReplacement(rep, Replace(s[|pat|..], pat, rep), pat, 0);
      assert rep[0..] == rep;
    } else if s != [] {
      var r := Replace(s[1..], pat, rep);
      ReplaceLeavesNone(s[1..], pat, rep);
      assert pat <= [s[0]] + r ==> pat[0] == s[0] && pat[1..] <= r;
      assert pat[0] == s[0] && pat[1..] <= s[1..] ==> pat <= s;
      PrefixSurvives(s[1..], pat[1..], pat, rep);
      assert ([s[0]] + r)[1..] == r;
    }
  }

  /** Python's `s.split(sep)` for a one-character separator: the pieces between
      separators, empty pieces included; never an empty list. */
  function Split(s: string, sep: char): (r: seq<string>)
    ensures |r| > 0
    ensures forall i :: 0 <= i < |r| ==> sep !in r[i]
    decreases |s|
  {
    if s == [] then [[]]
    else
      var rest := Split(s[1..], sep);
      if s[0] == sep then [[]] + rest
      else [[s[0]] + rest[0]] + rest[1..]
  }

  /** Python's `sep.join(parts)`. */
  function Join(parts: seq<string>, sep: char): string
    decreases |parts|
  {
    if parts == [] then []
    else if |parts| == 1 then parts[0]
    else parts[0] + [sep] + Join(parts[1..], sep)
  }

  /** Every character of a join is the separator or a character of a part. */
  lemma {:induction false} JoinChars(parts: seq<string>, sep: char, k: nat)
    requires k < |Join(parts, sep)|
    ensures Join(parts, sep)[k] == sep || exists i :: 0 <= i < |parts| && Join(parts, sep)[k] in parts[i]
    decreases |parts|
  {
    var joined := Join(parts, sep);
    if |parts| == 1 {
      assert joined[k] in parts[0];
    } else {
      var rest := Join(parts[1..], sep);
      assert joined == parts[0] + [sep] + rest;
      if k < |parts[0]| {
        assert joined[k] in parts[0];
      } else if k > |parts[0]| {
        var m := k - |parts[0]| - 1;
        JoinChars(parts[1..], sep, m);
        assert joined[k] == rest[m];
        if rest[m] != sep {
          var i :| 0 <= i < |parts[1..]| && rest[m] in parts[1..][i];
          assert parts[1..][i] == parts[i + 1];
        }
      }
    }
  }

  /** Joining the pieces of a split gives the string back. */
  lemma {:induction false} JoinSplit(s: string, sep: char)
    ensures Join(Split(s, sep), sep) == s
    decreases |s|
  {
    if s != [] {
      var rest := Split(s[1..], sep);
      JoinSplit(s[1..], sep);
      if s[0] == sep {
        assert ([[]] + rest)[1..] == rest;
      } else if |rest| > 1 {
        var parts := [[s[0]] + rest[0]] + rest[1..];
        assert parts[1..] == rest[1..];
        assert Join(rest, sep) == rest[0] + [sep] + Join(rest[1..], sep);
      }
    }
  }

  /** Splitting text that starts with a separator-free piece `x`. */
  lemma {:induction false} SplitAfterPiece(x: string, y: string, sep: char)
    requires sep !in x
    ensures Split(x + y, sep) == [x + Split(y, sep)[0]] + Split(y, sep)[1..]
    decreases |x|
  {
    if x == [] {
      assert x + y == y;
      assert x + Split(y, sep)[0] == Split(y, sep)[0];
      assert [Split(y, sep)[0]] + Split(y, sep)[1..] == Split(y, sep);
    } else {
      SplitAfterPiece(x[1..], y, sep);
      assert (x + y)[1..] == x[1..] + y;
      assert [x[0]] + (x[1..] + Split(y, sep)[0]) == x + Split(y, sep)[0];
    }
  }

  /** Splitting a join of separator-free pieces gives the pieces back. */
  lemma {:induction false} SplitJoin(parts: seq<string>, sep: char)
    requires |parts| > 0
    requires forall i :: 0 <= i < |parts| ==> sep !in parts[i]
    ensures Split(Join(parts, sep), sep) == parts
    decreases |parts|
  {
    if |parts| == 1 {
      SplitAfterPiece(parts[0], [], sep);
      assert parts[0] + [] == parts[0];
    } else {
      var rest := Join(parts[1..], sep);
      SplitJoin(parts[1..], sep);
      SplitAfterPiece(parts[0], [sep] + rest, sep);
      assert parts[0] + [sep] + rest == parts[0] + ([sep] + rest);
      assert ([sep] + rest)[1..] == rest;
      assert Split([sep] + rest, sep) == [[]] + Split(rest, sep);
      assert parts[0] + [] == parts[0];
      assert parts == [parts[0]] + parts[1..];
    }
  }

  /** Python's `str.isspace()` for one character. */
  predicate IsSpace(c: char)
  {
    var n := c as int;
    || 9 <= n <= 13 || 28 <= n <= 32 || n == 0x85 || n == 0xA0 || n == 0x1680
    || 0x2000 <= n <= 0x200A || n == 0x2028 || n == 0x2029 || n == 0x202F
    || n == 0x205F || n == 0x3000
  }

  /** Non-empty, and neither starting nor ending with whitespace. */
  predicate Trimmed(s: string)
  {
    s != [] && !IsSpace(s[0]) && !IsSpace(s[|s| - 1])
  }

  /** Python's `s.lstrip()`. */
  function TrimStart(s: string): string
    decreases |s|
  {
    if s != [] && IsSpace(s[0]) then TrimStart(s[1..]) else s
  }

  /** `lstrip` removes exactly the leading whitespace: what it drops is
      whitespace, and what it keeps is a tail that does not start with any. */
  lemma {:induction false} TrimStartSpec(s: string)
    ensures |TrimStart(s)| <= |s| && TrimStart(s) == s[|s| - |TrimStart(s)|..]
    ensures forall i :: 0 <= i < |s| - |TrimStart(s)| ==> IsSpace(s[i])
    ensures TrimStart(s) != [] ==> !IsSpace(TrimStart(s)[0])
    decreases |s|
  {
    if s != [] && IsSpace(s[0]) {
      TrimStartSpec(s[1..]);
      var r := TrimStart(s[1..]);
      assert s[1..][|s| - 1 - |r|..] == s[|s| - |r|..];
      forall i | 0 <= i < |s| - |r| ensures IsSpace(s[i]) {
        if i > 0 {
          assert s[i] == s[1..][i - 1];
        }
      }
    }
  }

  /** Python's `s.rstrip()`. */
  function TrimEnd(s: string): string
    decreases |s|
  {
    if s != [] && IsSpace(s[|s| - 1]) then TrimEnd(s[..|s| - 1]) else s
  }

  /** `rstrip` removes exactly the trailing whitespace. */
  lemma {:induction false} TrimEndSpec(s: string)
    ensures |TrimEnd(s)| <= |s| && TrimEnd(s) == s[..|TrimEnd(s)|]
    ensures forall i :: |TrimEnd(s)| <= i < |s| ==> IsSpace(s[i])
    ensures TrimEnd(s) != [] ==> !IsSpace(TrimEnd(s)[|TrimEnd(s)| - 1])
    decreases |s|
  {
    if s != [] && IsSpace(s[|s| - 1]) {
      var init := s[..|s| - 1];
      TrimEndSpec(init);
      var r := TrimEnd(init);
      assert init[..|r|] == s[..|r|];
      forall i | |r| <= i < |s| ensures IsSpace(s[i]) {
        if i < |s| - 1 {
          assert s[i] == init[i];
        }
      }
    }
  }

  /** Python's `s.strip()`: a non-blank result is trimmed at both ends. */
  function Strip(s: string): (r: string)
    ensures r != [] ==> Trimmed(r)
  {
    var t := TrimStart(s);
    TrimStartSpec(s);
    var r := TrimEnd(t);
    TrimEndSpec(t);
    assert r != [] ==> r[0] == t[0];
    r
  }

  /** The result is blank exactly when `s` is all whitespace. */
  lemma StripBlank(s: string)
    ensures Strip(s) == [] <==> forall i :: 0 <= i < |s| ==> IsSpace(s[i])
  {
    var t := TrimStart(s);
    TrimStartSpec(s);
    var r := TrimEnd(t);
    TrimEndSpec(t);
    if r != [] {
      assert r[0] == s[|s| - |t|];
    }
  }

  /** The result only holds characters of `s`. */
  lemma StripChars(s: string)
    ensures forall c :: c in Strip(s) ==> c in s
  {
    var t := TrimStart(s);
    TrimStartSpec(s);
    TrimEndSpec(t);
    assert forall c :: c in t ==> c in s;
  }

  /** Text that is already trimmed is left alone. */
  lemma StripTrimmed(s: string)
    requires Trimmed(s)
    ensures Strip(s) == s
  {
  }
}
