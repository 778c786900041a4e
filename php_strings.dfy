/** The PHP string primitives the post-processing code relies on:
    `trim`, `explode`, `implode`, reading a string offset, and truthiness. */
module PhpStrings {

  /** The characters PHP's `trim` strips when given no character list:
      space, tab, line feed, carriage return, NUL and vertical tab. */
  predicate IsTrimChar(c: char) {
    c == ' ' || c == '\t' || c == '\n' || c == '\r' || c == '\0' || c == '\U{000B}'
  }

  predicate AllTrimChars(s: string) {
    forall i :: 0 <= i < |s| ==> IsTrimChar(s[i])
  }

  /** Neither end of `s` is a character `trim` would strip. */
  predicate IsTrimmed(s: string) {
    s == [] || (!IsTrimChar(s[0]) && !IsTrimChar(s[|s| - 1]))
  }

  /** `ltrim`: drops the longest prefix of trim characters. */
  function TrimLeft(s: string): (r: string)
    ensures |r| <= |s|
  {
    if |s| > 0 && IsTrimChar(s[0]) then TrimLeft(s[1..]) else s
  }

  /** `ltrim` keeps a suffix, drops only trim characters, and stops at a
      character it does not strip. */
  lemma {:induction false} TrimLeftShape(s: string)
    ensures TrimLeft(s) == s[|s| - |TrimLeft(s)|..]
    ensures AllTrimChars(s[..|s| - |TrimLeft(s)|])
    ensures TrimLeft(s) == [] || !IsTrimChar(TrimLeft(s)[0])
  {
    if |s| > 0 && IsTrimChar(s[0]) {
      var t := s[1..];
      TrimLeftShape(t);
      var r := TrimLeft(t);
      assert TrimLeft(s) == r;
      assert t[|t| - |r|..] == s[|s| - |r|..];
      var p := s[..|s| - |r|];
      forall i | 0 <= i < |p| ensures IsTrimChar(p[i]) {
        if i > 0 {
          assert p[i] == t[..|t| - |r|][i - 1];
        }
      }
    } else {
      assert s[..0] == [];
    }
  }

  /** `rtrim`: drops the longest suffix of trim characters. */
  function TrimRight(s: string): (r: string)
    ensures |r| <= |s|
  {
    if |s| > 0 && IsTrimChar(s[|s| - 1]) then TrimRight(s[..|s| - 1]) else s
  }

  /** `rtrim` keeps a prefix, drops only trim characters, and stops at a
      character it does not strip. */
  lemma {:induction false} TrimRightShape(s: string)
    ensures TrimRight(s) == s[..|TrimRight(s)|]
    ensures AllTrimChars(s[|TrimRight(s)|..])
    ensures TrimRight(s) == [] || !IsTrimChar(TrimRight(s)[|TrimRight(s)| - 1])
  {
    if |s| > 0 && IsTrimChar(s[|s| - 1]) {
      var t := s[..|s| - 1];
      TrimRightShape(t);
      var r := TrimRight(t);
      assert TrimRight(s) == r;
      assert t[..|r|] == s[..|r|];
      var q := s[|r|..];
      forall i | 0 <= i < |q| ensures IsTrimChar(q[i]) {
        if i < |q| - 1 {
          assert q[i] == t[|r|..][i];
        }
      }
    } else {
      assert s[|s|..] == [];
    }
  }

  /** `trim`. */
  function Trim(s: string): (r: string)
    ensures IsTrimmed(r)
    ensures |r| <= |s|
  {
    TrimLeftShape(s);
    TrimRightShape(TrimLeft(s));
    TrimRight(TrimLeft(s))
  }

  /** A character absent from a string is absent from its trim. */
  lemma TrimKeepsOut(s: string, c: char)
    requires c !in s
    ensures c !in Trim(s)
  {
    TrimLeftShape(s);
    var t := TrimLeft(s);
    TrimRightShape(t);
    forall i | 0 <= i < |t| ensures t[i] != c {
      assert t[i] == s[|s| - |t| + i];
    }
    var r := TrimRight(t);
    forall i | 0 <= i < |r| ensures r[i] != c {
      assert r[i] == t[i];
    }
  }

  lemma TrimOfTrimmed(s: string)
    requires IsTrimmed(s)
    ensures Trim(s) == s
  {
  }

  lemma {:induction false} TrimLeftOfTrimChars(s: string)
    requires AllTrimChars(s)
    ensures TrimLeft(s) == []
  {
    if s != [] {
      TrimLeftOfTrimChars(s[1..]);
    }
  }

  lemma {:induction false} TrimLeftDropsHead(w: string, s: string)
    requires AllTrimChars(w)
    ensures TrimLeft(w + s) == TrimLeft(s)
  {
    if w != [] {
      assert (w + s)[0] == w[0] && IsTrimChar(w[0]);
      assert (w + s)[1..] == w[1..] + s;
      assert TrimLeft(w + s) == TrimLeft(w[1..] + s);
      TrimLeftDropsHead(w[1..], s);
    } else {
      assert w + s == s;
    }
  }

  lemma {:induction false} TrimLeftKeepsTail(s: string, w: string)
    requires !AllTrimChars(s)
    ensures TrimLeft(s + w) == TrimLeft(s) + w
  {
    assert s != [];
    if IsTrimChar(s[0]) {
      assert (s + w)[1..] == s[1..] + w;
      assert !AllTrimChars(s[1..]) by {
        var i :| 0 <= i < |s| && !IsTrimChar(s[i]);
        assert s[1..][i - 1] == s[i];
      }
      TrimLeftKeepsTail(s[1..], w);
    }
  }

  lemma {:induction false} TrimRightDropsTail(s: string, w: string)
    requires AllTrimChars(w)
    ensures TrimRight(s + w) == TrimRight(s)
  {
    if w != [] {
      var w' := w[..|w| - 1];
      assert (s + w)[|s + w| - 1] == w[|w| - 1] && IsTrimChar(w[|w| - 1]);
      assert (s + w)[..|s + w| - 1] == s + w';
      assert TrimRight(s + w) == TrimRight(s + w');
      TrimRightDropsTail(s, w');
    } else {
      assert s + w == s;
    }
  }

  /** Leading characters that `trim` strips never reach its result. */
  lemma TrimDropsLeadingTrimChars(w: string, s: string)
    requires AllTrimChars(w)
    ensures Trim(w + s) == Trim(s)
  {
    TrimLeftDropsHead(w, s);
  }

  /** Trailing characters that `trim` strips never reach its result. */
  lemma TrimDropsTrailingTrimChars(s: string, w: string)
    requires AllTrimChars(w)
    ensures Trim(s + w) == Trim(s)
  {
    if AllTrimChars(s) {
      assert AllTrimChars(s + w);
      TrimLeftOfTrimChars(s + w);
      TrimLeftOfTrimChars(s);
    } else {
      TrimLeftKeepsTail(s, w);
      TrimRightDropsTail(TrimLeft(s), w);
    }
  }

  /** `explode($sep, $s)` for a one-character separator: the pieces between
      separators, an empty piece where two separators meet or at either end. */
  function Explode(sep: char, s: string): (r: seq<string>)
    ensures |r| >= 1
    ensures forall i :: 0 <= i < |r| ==> sep !in r[i]
  {
    if s == [] then [[]]
    else
      var rest := Explode(sep, s[1..]);
      if s[0] == sep then [[]] + rest else [[s[0]] + rest[0]] + rest[1..]
  }

  /** `implode($glue, $parts)`. */
  function Implode(glue: string, parts: seq<string>): string {
    if parts == [] then []
    else if |parts| == 1 then parts[0]
    else parts[0] + glue + Implode(glue, parts[1..])
  }

  lemma ImplodeConsHead(glue: string, a: string, b: string, rest: seq<string>)
    ensures Implode(glue, [a + b] + rest) == a + Implode(glue, [b] + rest)
  {
    if rest != [] {
      assert ([a + b] + rest)[1..] == rest;
      assert ([b] + rest)[1..] == rest;
    }
  }

  /** Joining the pieces of `explode` with the separator gives back the string. */
  lemma {:induction false} ImplodeExplode(sep: char, s: string)
    ensures Implode([sep], Explode(sep, s)) == s
  {
    if s != [] {
      var rest := Explode(sep, s[1..]);
      ImplodeExplode(sep, s[1..]);
      if s[0] == sep {
        assert ([[]] + rest)[1..] == rest;
      } else {
        assert rest == [rest[0]] + rest[1..];
        ImplodeConsHead([sep], [s[0]], rest[0], rest[1..]);
      }
    }
  }

  lemma {:induction false} ExplodeWithoutSeparator(sep: char, p: string)
    requires sep !in p
    ensures Explode(sep, p) == [p]
  {
    if p != [] {
      assert p[0] != sep && sep !in p[1..];
      ExplodeWithoutSeparator(sep, p[1..]);
      assert p == [p[0]] + p[1..];
    }
  }

  lemma {:induction false} ExplodeSplitsAtSeparator(sep: char, p: string, t: string)
    requires sep !in p
    ensures Explode(sep, p + [sep] + t) == [p] + Explode(sep, t)
  {
    if p == [] {
      assert ([sep] + t)[1..] == t;
    } else {
      assert (p + [sep] + t)[1..] == p[1..] + [sep] + t;
      ExplodeSplitsAtSeparator(sep, p[1..], t);
      assert p == [p[0]] + p[1..];
    }
  }

  /** Splitting a join of separator-free pieces gives back the pieces. */
  lemma {:induction false} ExplodeImplode(sep: char, parts: seq<string>)
    requires |parts| >= 1
    requires forall i :: 0 <= i < |parts| ==> sep !in parts[i]
    ensures Explode(sep, Implode([sep], parts)) == parts
  {
    if |parts| == 1 {
      ExplodeWithoutSeparator(sep, parts[0]);
    } else {
      ExplodeImplode(sep, parts[1..]);
      ExplodeSplitsAtSeparator(sep, parts[0], Implode([sep], parts[1..]));
    }
  }

  /** `$s[$i]` on a string: the one-character string at offset `i`, or the
      empty string when `i` is past the end (PHP warns and yields ""). */
  function Offset(s: string, i: nat): (r: string)
    ensures |r| <= 1
  {
    if i < |s| then [s[i]] else []
  }

  /** XPath 1.0 `starts-with`. */
  predicate StartsWith(s: string, prefix: string) {
    |prefix| <= |s| && s[..|prefix|] == prefix
  }

  /** PHP truthiness of a string: every string except "" and "0" is true. */
  predicate IsTruthy(s: string) {
    s != [] && s != "0"
  }
}
