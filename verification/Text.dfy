/** The string operations the configuration code relies on. Strings are sequences of code points. */
module Text {

  /** unicode.IsSpace */
  predicate IsSpace(c: char) {
    var n := c as int;
    9 <= n <= 13 || n == 0x20 || n == 0x85 || n == 0xA0 || n == 0x1680 || 0x2000 <= n <= 0x200A
    || n == 0x2028 || n == 0x2029 || n == 0x202F || n == 0x205F || n == 0x3000
  }

  function TrimLeft(s: string): string {
    if s != [] && IsSpace(s[0]) then TrimLeft(s[1..]) else s
  }

  function TrimRight(s: string): string {
    if s != [] && IsSpace(s[|s| - 1]) then TrimRight(s[..|s| - 1]) else s
  }

  /** strings.TrimSpace */
  function TrimSpace(s: string): string {
    TrimRight(TrimLeft(s))
  }

  predicate Trimmed(s: string) {
    s == [] || (!IsSpace(s[0]) && !IsSpace(s[|s| - 1]))
  }

  predicate AllSpace(s: string) {
    forall c | c in s :: IsSpace(c)
  }

  /** strings.Split by a separator of one character. */
  function Split(s: string, sep: char): (parts: seq<string>)
    ensures |parts| >= 1
  {
    if s == [] then [""]
    else
      var rest := Split(s[1..], sep);
      if s[0] == sep then [""] + rest else [[s[0]] + rest[0]] + rest[1..]
  }

  predicate OccursAt(s: string, sub: string, i: int) {
    0 <= i <= |s| - |sub| && s[i..i + |sub|] == sub
  }

  /** strings.Contains */
  predicate Contains(s: string, sub: string) {
    exists i :: 0 <= i <= |s| && OccursAt(s, sub, i)
  }

  /** strings.HasSuffix */
  predicate HasSuffix(s: string, suffix: string) {
    |suffix| <= |s| && s[|s| - |suffix|..] == suffix
  }

  /** A part of a text, and its end, as pieces that it is put together from. */
  lemma PartsExactly(s: string, sub: string)
    ensures Contains(s, sub) <==> exists a, b :: s == a + sub + b
    ensures HasSuffix(s, sub) <==> exists a :: s == a + sub
  {
    if i :| 0 <= i <= |s| && OccursAt(s, sub, i) {
      assert s == s[..i] + sub + s[i + |sub|..];
    }
    if a, b :| s == a + sub + b {
      assert s[|a|..|a| + |sub|] == sub;
      assert OccursAt(s, sub, |a|);
    }
    if HasSuffix(s, sub) {
      assert s == s[..|s| - |sub|] + sub;
    }
  }

  // ---------- trimming ----------

  lemma {:induction false} TrimLeftIsSuffix(s: string)
    ensures |TrimLeft(s)| <= |s| && TrimLeft(s) == s[|s| - |TrimLeft(s)|..]
    ensures TrimLeft(s) != [] ==> !IsSpace(TrimLeft(s)[0])
  {
    if s != [] && IsSpace(s[0]) {
      TrimLeftIsSuffix(s[1..]);
    }
  }

  lemma {:induction false} TrimRightIsPrefix(s: string)
    ensures TrimRight(s) <= s
    ensures TrimRight(s) != [] ==> !IsSpace(TrimRight(s)[|TrimRight(s)| - 1])
  {
    if s != [] && IsSpace(s[|s| - 1]) {
      TrimRightIsPrefix(s[..|s| - 1]);
    }
  }

  lemma TrimSpaceResult(s: string)
    ensures Trimmed(TrimSpace(s))
    ensures forall c | c in TrimSpace(s) :: c in s
  {
    TrimLeftIsSuffix(s);
    TrimRightIsPrefix(TrimLeft(s));
  }

  lemma {:induction false} TrimLeftPadding(a: string, x: string)
    requires AllSpace(a)
    requires x == [] || !IsSpace(x[0])
    ensures TrimLeft(a + x) == x
  {
    if a == [] {
      assert a + x == x;
    } else {
      assert (a + x)[1..] == a[1..] + x;
      TrimLeftPadding(a[1..], x);
    }
  }

  lemma {:induction false} TrimRightPadding(x: string, b: string)
    requires AllSpace(b)
    requires x == [] || !IsSpace(x[|x| - 1])
    ensures TrimRight(x + b) == x
  {
    if b == [] {
      assert x + b == x;
    } else {
      assert (x + b)[..|x + b| - 1] == x + b[..|b| - 1];
      TrimRightPadding(x, b[..|b| - 1]);
    }
  }

  /** Padding a trimmed text on both sides is undone by TrimSpace. */
  lemma TrimPadded(a: string, x: string, b: string)
    requires AllSpace(a) && AllSpace(b) && Trimmed(x)
    ensures TrimSpace(a + x + b) == x
  {
    if x == [] {
      assert a + x + b == (a + b) + [];
      TrimLeftPadding(a + b, []);
    } else {
      assert a + x + b == a + (x + b);
      TrimLeftPadding(a, x + b);
      TrimRightPadding(x, b);
    }
  }

  /** The characters that trimming removes, one by one. */
  const SPACES := {'\t', '\n', '\U{0B}', '\U{0C}', '\r', ' ', '\U{85}', '\U{A0}', '\U{1680}',
                   '\U{2000}', '\U{2001}', '\U{2002}', '\U{2003}', '\U{2004}', '\U{2005}', '\U{2006}',
                   '\U{2007}', '\U{2008}', '\U{2009}', '\U{200A}',
                   '\U{2028}', '\U{2029}', '\U{202F}', '\U{205F}', '\U{3000}'}

  lemma SpacesExactly(c: char)
    ensures IsSpace(c) <==> c in SPACES
  {
  }

  /** What TrimSpace yields: the text without a prefix and a suffix of spaces, and with no space left
      at either end. No other text has this property. */
  lemma TrimmedExactly(s: string, t: string)
    ensures TrimSpace(s) == t <==>
            && (t == [] || (t[0] !in SPACES && t[|t| - 1] !in SPACES))
            && exists a, b :: s == a + t + b && forall c | c in a + b :: c in SPACES
  {
    forall c ensures IsSpace(c) <==> c in SPACES {
      SpacesExactly(c);
    }
    TrimSpaceResult(s);
    TrimSpaceParts(s);
    if Trimmed(t) {
      if a, b :| s == a + t + b && forall c | c in a + b :: c in SPACES {
        assert AllSpace(a) && AllSpace(b);
        TrimPadded(a, t, b);
      }
    }
  }

  lemma TrimSpaceParts(s: string)
    ensures exists a, b :: s == a + TrimSpace(s) + b && AllSpace(a + b)
  {
    var l := TrimLeft(s);
    TrimLeftParts(s);
    TrimRightParts(l);
    var a :| s == a + l && AllSpace(a);
    var b :| l == TrimRight(l) + b && AllSpace(b);
    assert s == a + TrimSpace(s) + b;
    assert AllSpace(a + b);
  }

  lemma {:induction false} TrimLeftParts(s: string)
    ensures exists a :: s == a + TrimLeft(s) && AllSpace(a)
  {
    if s != [] && IsSpace(s[0]) {
      TrimLeftParts(s[1..]);
      var a :| s[1..] == a + TrimLeft(s) && AllSpace(a);
      assert s == ([s[0]] + a) + TrimLeft(s);
    } else {
      assert s == [] + TrimLeft(s);
    }
  }

  lemma {:induction false} TrimRightParts(s: string)
    ensures exists b :: s == TrimRight(s) + b && AllSpace(b)
  {
    if s != [] && IsSpace(s[|s| - 1]) {
      TrimRightParts(s[..|s| - 1]);
      var b :| s[..|s| - 1] == TrimRight(s) + b && AllSpace(b);
      assert s == TrimRight(s) + (b + [s[|s| - 1]]);
    } else {
      assert s == TrimRight(s) + [];
    }
  }

  // ---------- splitting ----------

  lemma {:induction false} SplitParts(s: string, sep: char)
    ensures forall i | 0 <= i < |Split(s, sep)| :: sep !in Split(s, sep)[i]
  {
    if s != [] {
      SplitParts(s[1..], sep);
    }
  }

  lemma {:induction false} SplitWhole(s: string, sep: char)
    requires sep !in s
    ensures Split(s, sep) == [s]
  {
    if s != [] {
      SplitWhole(s[1..], sep);
      assert s == [s[0]] + s[1..];
    }
  }

  lemma {:induction false} SplitFirst(a: string, sep: char, rest: string)
    requires sep !in a
    ensures Split(a + [sep] + rest, sep) == [a] + Split(rest, sep)
  {
    var s := a + [sep] + rest;
    if a == [] {
      assert s[1..] == rest;
    } else {
      assert s[1..] == a[1..] + [sep] + rest;
      SplitFirst(a[1..], sep, rest);
      assert a == [a[0]] + a[1..];
    }
  }

  lemma {:induction false} SplitSingle(s: string, sep: char)
    ensures |Split(s, sep)| == 1 <==> sep !in s
  {
    if s != [] {
      SplitSingle(s[1..], sep);
    }
  }
}
