/** JavaScript strings as the detector and the popup see them: sequences of UTF-16
    code units. `length`, `substring` and regular expressions without the `u` flag
    all count and index code units, so the model does too. */
module JsText {

  newtype CodeUnit = x: int | 0 <= x < 0x1_0000

  type Text = seq<CodeUnit>

  /** The code units of an ASCII string literal. */
  function Ascii(s: string): (t: Text)
    requires forall k :: 0 <= k < |s| ==> s[k] as int < 0x80
    ensures |t| == |s|
    ensures forall k :: 0 <= k < |s| ==> t[k] as int == s[k] as int
  {
    seq(|s|, k requires 0 <= k < |s| => s[k] as int as CodeUnit)
  }

  const QUESTION_MARK: CodeUnit := 0x3F
  const CHECK_MARK: CodeUnit := 0x2713
  const BULLET: CodeUnit := 0x2022
  const HYPHEN: CodeUnit := 0x2D

  /** The sentinel the detector reports for a question without a chosen answer. */
  const UNKNOWN: Text := Ascii("Unknown")

  const ELLIPSIS: Text := Ascii("...")

  // ---------------------------------------------------------------------------
  // String.prototype.trim
  // ---------------------------------------------------------------------------

  /** ECMAScript WhiteSpace and LineTerminator code units: what `trim` removes and
      what `\s` matches. */
  predicate IsWhitespace(u: CodeUnit) {
    || u == 0x09 || u == 0x0A || u == 0x0B || u == 0x0C || u == 0x0D
    || u == 0x20 || u == 0xA0 || u == 0x1680
    || (0x2000 <= u <= 0x200A)
    || u == 0x2028 || u == 0x2029 || u == 0x202F || u == 0x205F
    || u == 0x3000 || u == 0xFEFF
  }

  predicate AllWhitespace(t: Text) {
    forall k :: 0 <= k < |t| ==> IsWhitespace(t[k])
  }

  /** Neither end of `t` is whitespace: the shape of every `trim` result. */
  predicate IsTrimmed(t: Text) {
    |t| == 0 || (!IsWhitespace(t[0]) && !IsWhitespace(t[|t| - 1]))
  }

  /** Drops the leading whitespace. */
  function TrimStart(s: Text): Text
    decreases |s|
  {
    if |s| > 0 && IsWhitespace(s[0]) then TrimStart(s[1..]) else s
  }

  /** Drops the trailing whitespace. */
  function TrimEnd(s: Text): Text
    decreases |s|
  {
    if |s| > 0 && IsWhitespace(s[|s| - 1]) then TrimEnd(s[..|s| - 1]) else s
  }

  /** `s.trim()`: the text between the leading and the trailing whitespace. */
  function Trim(s: Text): Text {
    TrimEnd(TrimStart(s))
  }

  /** `TrimStart` removes a whitespace prefix and stops at the first other code unit. */
  lemma {:induction false} TrimStartShape(s: Text)
    ensures var r := TrimStart(s);
      && |r| <= |s| && r == s[|s| - |r|..]
      && (|r| > 0 ==> !IsWhitespace(r[0]))
      && AllWhitespace(s[..|s| - |r|])
    decreases |s|
  {
    if |s| > 0 && IsWhitespace(s[0]) {
      TrimStartShape(s[1..]);
      var r := TrimStart(s[1..]);
      assert s[1..][|s| - 1 - |r|..] == s[|s| - |r|..];
      assert s[..|s| - |r|] == [s[0]] + s[1..][..|s| - 1 - |r|];
    }
  }

  /** `TrimEnd` removes a whitespace suffix and stops at the last other code unit. */
  lemma {:induction false} TrimEndShape(s: Text)
    ensures var r := TrimEnd(s);
      && |r| <= |s| && r == s[..|r|]
      && (|r| > 0 ==> !IsWhitespace(r[|r| - 1]))
      && AllWhitespace(s[|r|..])
    decreases |s|
  {
    if |s| > 0 && IsWhitespace(s[|s| - 1]) {
      var s' := s[..|s| - 1];
      TrimEndShape(s');
      var r := TrimEnd(s');
      assert s'[..|r|] == s[..|r|];
      assert s[|r|..] == s'[|r|..] + [s[|s| - 1]];
    }
  }

  /** What `trim` returns: a slice of its input with no whitespace at either end,
      and with only whitespace cut away on either side. */
  lemma TrimShape(s: Text)
    ensures IsTrimmed(Trim(s))
    ensures exists i :: var r := Trim(s);
      && 0 <= i && i + |r| <= |s| && r == s[i..i + |r|]
      && AllWhitespace(s[..i]) && AllWhitespace(s[i + |r|..])
  {
    var t := TrimStart(s);
    TrimStartShape(s);
    TrimEndShape(t);
    var r := TrimEnd(t);
    var i := |s| - |t|;
    if |r| > 0 {
      assert r[0] == t[0];
    }
    assert s[i..i + |r|] == t[..|r|];
    assert s[i + |r|..] == t[|r|..];
  }

  lemma {:induction false} TrimStartSkips(a: Text, t: Text)
    requires AllWhitespace(a)
    requires |t| == 0 || !IsWhitespace(t[0])
    ensures TrimStart(a + t) == t
    decreases |a|
  {
    if |a| > 0 {
      assert (a + t)[1..] == a[1..] + t;
      TrimStartSkips(a[1..], t);
    } else {
      assert a + t == t;
    }
  }

  lemma {:induction false} TrimEndSkips(t: Text, b: Text)
    requires AllWhitespace(b)
    requires |t| == 0 || !IsWhitespace(t[|t| - 1])
    ensures TrimEnd(t + b) == t
    decreases |b|
  {
    if |b| > 0 {
      assert (t + b)[..|t + b| - 1] == t + b[..|b| - 1];
      TrimEndSkips(t, b[..|b| - 1]);
    } else {
      assert t + b == t;
    }
  }

  /** Reference characterisation of `trim`: surrounding a trimmed text with any
      whitespace and trimming gives the text back. */
  lemma {:induction false} TrimInverse(a: Text, t: Text, b: Text)
    requires AllWhitespace(a) && AllWhitespace(b) && IsTrimmed(t)
    ensures Trim(a + t + b) == t
  {
    if |t| == 0 {
      var s := a + t + b;
      assert AllWhitespace(s);
      TrimStartShape(s);
      var r := TrimStart(s);
      assert r == [];
    } else {
      assert a + t + b == a + (t + b);
      TrimStartSkips(a, t + b);
      TrimEndSkips(t, b);
    }
  }

  /** Whatever precedes it, a final non-whitespace code unit followed only by
      whitespace is the last code unit of the trimmed text. */
  lemma TrimKeepsLast(t: Text, w: Text)
    requires |t| > 0 && !IsWhitespace(t[|t| - 1]) && AllWhitespace(w)
    ensures var r := Trim(t + w);
      |r| > 0 && r[|r| - 1] == t[|t| - 1]
  {
    TrimStartShape(t);
    var r := TrimStart(t);
    var a := t[..|t| - |r|];
    assert r[|r| - 1] == t[|t| - 1];
    assert a + r == t;
    TrimInverse(a, r, w);
  }

  /** A text with no whitespace at its ends comes back from `trim` unchanged. */
  lemma TrimKeepsTrimmed(t: Text)
    requires IsTrimmed(t)
    ensures Trim(t) == t
  {
    assert [] + t + [] == t;
    TrimInverse([], t, []);
  }

  /** `trim` is idempotent. */
  lemma TrimIdempotent(s: Text)
    ensures Trim(Trim(s)) == Trim(s)
  {
    TrimShape(s);
    TrimKeepsTrimmed(Trim(s));
  }

  // ---------------------------------------------------------------------------
  // Substring tests
  // ---------------------------------------------------------------------------

  predicate EndsWith(t: Text, u: CodeUnit) {
    |t| > 0 && t[|t| - 1] == u
  }

  predicate OccursAt(t: Text, i: int, pattern: Text) {
    0 <= i && i + |pattern| <= |t| && t[i..i + |pattern|] == pattern
  }

  /** The case folding of a case-insensitive regular expression without the `u`
      flag, restricted to what it does to ASCII: a non-ASCII code unit never folds
      onto an ASCII one, so ASCII patterns match exactly their ASCII case variants. */
  function AsciiLower(u: CodeUnit): CodeUnit {
    if 0x41 <= u <= 0x5A then u + 0x20 else u
  }

  predicate OccursAtIgnoringCase(t: Text, i: int, pattern: Text) {
    && 0 <= i && i + |pattern| <= |t|
    && forall k :: 0 <= k < |pattern| ==> AsciiLower(t[i + k]) == AsciiLower(pattern[k])
  }

  /** `pattern` occurs in `t` (a regular expression made of literal code units):
      scanned from the left as a regex search does. */
  predicate Contains(t: Text, pattern: Text)
    decreases |t|
  {
    OccursAt(t, 0, pattern) || (|t| > 0 && Contains(t[1..], pattern))
  }

  /** An ASCII `pattern` occurs in `t` under case-insensitive matching. */
  predicate ContainsIgnoringCase(t: Text, pattern: Text)
    decreases |t|
  {
    OccursAtIgnoringCase(t, 0, pattern) || (|t| > 0 && ContainsIgnoringCase(t[1..], pattern))
  }

  /** The left-to-right search finds `pattern` exactly when it occurs somewhere. */
  lemma {:induction false} ContainsMeans(t: Text, pattern: Text)
    ensures Contains(t, pattern) <==> exists i :: OccursAt(t, i, pattern)
    decreases |t|
  {
    if |t| > 0 {
      ContainsMeans(t[1..], pattern);
      if Contains(t[1..], pattern) {
        var i :| OccursAt(t[1..], i, pattern);
        assert t[1..][i..i + |pattern|] == t[i + 1..i + 1 + |pattern|];
        assert OccursAt(t, i + 1, pattern);
      }
      if exists i :: OccursAt(t, i, pattern) {
        var i :| OccursAt(t, i, pattern);
        if i > 0 {
          assert t[1..][i - 1..i - 1 + |pattern|] == t[i..i + |pattern|];
          assert OccursAt(t[1..], i - 1, pattern);
        }
      }
    }
  }

  /** The same for the case-insensitive search. */
  lemma {:induction false} ContainsIgnoringCaseMeans(t: Text, pattern: Text)
    ensures ContainsIgnoringCase(t, pattern) <==> exists i :: OccursAtIgnoringCase(t, i, pattern)
    decreases |t|
  {
    if |t| > 0 {
      ContainsIgnoringCaseMeans(t[1..], pattern);
      if ContainsIgnoringCase(t[1..], pattern) {
        var i :| OccursAtIgnoringCase(t[1..], i, pattern);
        forall k | 0 <= k < |pattern|
          ensures AsciiLower(t[i + 1 + k]) == AsciiLower(pattern[k])
        {
          assert t[1..][i + k] == t[i + 1 + k];
        }
        assert OccursAtIgnoringCase(t, i + 1, pattern);
      }
      if exists i :: OccursAtIgnoringCase(t, i, pattern) {
        var i :| OccursAtIgnoringCase(t, i, pattern);
        if i > 0 {
          forall k | 0 <= k < |pattern|
            ensures AsciiLower(t[1..][i - 1 + k]) == AsciiLower(pattern[k])
          {
            assert t[1..][i - 1 + k] == t[i + k];
          }
          assert OccursAtIgnoringCase(t[1..], i - 1, pattern);
        }
      }
    }
  }

  /** A search cannot succeed when the text never holds the pattern's first code
      unit, or when the pattern is longer than the text. */
  lemma {:induction false} NotContainedIgnoringCase(t: Text, pattern: Text)
    requires |pattern| > 0
    requires |pattern| > |t| || forall k :: 0 <= k < |t| ==> AsciiLower(t[k]) != AsciiLower(pattern[0])
    ensures !ContainsIgnoringCase(t, pattern)
  {
    ContainsIgnoringCaseMeans(t, pattern);
    if |pattern| <= |t| {
      forall i | 0 <= i <= |t| - |pattern|
        ensures !OccursAtIgnoringCase(t, i, pattern)
      {
        assert AsciiLower(t[i + 0]) != AsciiLower(pattern[0]);
      }
    }
  }

  lemma {:induction false} NotContained(t: Text, u: CodeUnit)
    requires forall k :: 0 <= k < |t| ==> t[k] != u
    ensures !Contains(t, [u])
  {
    ContainsMeans(t, [u]);
    if |t| > 0 {
      forall i | 0 <= i < |t|
        ensures !OccursAt(t, i, [u])
      {
        assert t[i..i + 1] == [t[i]];
      }
    }
  }

}
