/** The parts of Go's `strings` and `fmt` packages that the core relies on,
    stated over Dafny strings (sequences of Unicode scalar values). */
module Strings {

  /** strings.HasSuffix */
  predicate HasSuffix(s: string, suffix: string)
    ensures HasSuffix(s, suffix) <==> |suffix| <= |s| && s == s[..|s| - |suffix|] + suffix
  {
    |suffix| <= |s| && s[|s| - |suffix|..] == suffix
  }

  /** Number of occurrences of `c` in `s` (strings.Count with a
      one-character separator). */
  function Count(s: string, c: char): (n: nat)
    ensures n <= |s|
  {
    if s == [] then 0 else (if s[0] == c then 1 else 0) + Count(s[1..], c)
  }

  /** strings.ReplaceAll(s, c, ""): `s` with every `c` deleted. */
  function RemoveAll(s: string, c: char): (r: string)
    ensures c !in r
    ensures forall x :: x in r <==> x in s && x != c
    ensures forall d {:trigger Count(r, d)} :: d != c ==> Count(r, d) == Count(s, d)
    ensures |r| == |s| - Count(s, c)
  {
    if s == [] then []
    else
      var rest := RemoveAll(s[1..], c);
      if s[0] == c then rest
      else
        var r := [s[0]] + rest;
        assert r[1..] == rest;
        r
  }

  /** strings.Join with a one-character separator. */
  function Join(parts: seq<string>, sep: char): string
  {
    if |parts| == 0 then ""
    else if |parts| == 1 then parts[0]
    else parts[0] + [sep] + Join(parts[1..], sep)
  }

  /** strings.Split with a one-character separator: the pieces of `s`
      between occurrences of `sep`. Splitting "" gives [""]. */
  function Split(s: string, sep: char): (parts: seq<string>)
    ensures |parts| == Count(s, sep) + 1
    ensures forall i :: 0 <= i < |parts| ==> sep !in parts[i]
    ensures forall i, x :: 0 <= i < |parts| && x in parts[i] ==> x in s
    ensures Join(parts, sep) == s
  {
    if s == [] then [""]
    else
      var rest := Split(s[1..], sep);
      if s[0] == sep then
        assert ([""] + rest)[1..] == rest;
        assert forall x :: x in s[1..] ==> x in s;
        [""] + rest
      else
        var parts := [[s[0]] + rest[0]] + rest[1..];
        assert |rest| > 1 ==> Join(rest, sep) == rest[0] + [sep] + Join(rest[1..], sep);
        assert |rest| > 1 ==> parts[1..] == rest[1..];
        assert s == [s[0]] + s[1..];
        parts
  }

  /** Splitting a word free of `sep` glued to the front of `t` extends the
      first piece of `t` and leaves the others alone. */
  lemma {:induction false} SplitPrefix(w: string, t: string, sep: char)
    requires sep !in w
    ensures Split(w + t, sep) == [w + Split(t, sep)[0]] + Split(t, sep)[1..]
  {
    var p := Split(t, sep);
    if w != [] {
      var s := w + t;
      assert s[0] == w[0] && s[0] != sep;
      assert s[1..] == w[1..] + t;
      SplitPrefix(w[1..], t, sep);
      var rest := Split(s[1..], sep);
      var head := [s[0]] + rest[0];
      assert head == w + p[0] by {
        assert rest[0] == w[1..] + p[0];
        assert [w[0]] + w[1..] == w;
      }
      assert rest[1..] == p[1..];
      assert Split(s, sep) == [head] + rest[1..];
    } else {
      assert w + t == t;
      assert p == [p[0]] + p[1..];
      assert w + p[0] == p[0];
    }
  }

  /** Split undoes Join when no piece contains the separator. */
  lemma {:induction false} SplitJoin(parts: seq<string>, sep: char)
    requires |parts| > 0
    requires forall i :: 0 <= i < |parts| ==> sep !in parts[i]
    ensures Split(Join(parts, sep), sep) == parts
  {
    if |parts| == 1 {
      SplitPrefix(parts[0], "", sep);
      assert parts[0] + "" == parts[0];
    } else {
      var j1 := Join(parts[1..], sep);
      var t := [sep] + j1;
      assert Join(parts, sep) == parts[0] + t;
      SplitJoin(parts[1..], sep);
      var st := Split(t, sep);
      assert st == [""] + parts[1..] by {
        assert t != [] && t[0] == sep && t[1..] == j1;
      }
      SplitPrefix(parts[0], t, sep);
      assert st[0] == "" && st[1..] == parts[1..];
      assert parts[0] + st[0] == parts[0];
      assert [parts[0]] + parts[1..] == parts;
    }
  }

  /** unicode.IsSpace, which strings.Fields uses: the ASCII white space
      characters and the other Unicode White_Space code points. */
  predicate IsSpace(c: char)
  {
    c == ' ' || c == '\t' || c == '\n' || c == '\U{000B}' || c == '\U{000C}' || c == '\r'
    || c == '\U{0085}' || c == '\U{00A0}' || c == '\U{1680}'
    || ('\U{2000}' <= c <= '\U{200A}')
    || c == '\U{2028}' || c == '\U{2029}' || c == '\U{202F}' || c == '\U{205F}' || c == '\U{3000}'
  }

  predicate NoSpace(s: string)
  {
    forall i :: 0 <= i < |s| ==> !IsSpace(s[i])
  }

  /** Length of the longest space-free prefix of `s`. */
  function WordEnd(s: string): (n: nat)
    ensures n <= |s|
    ensures NoSpace(s[..n])
    ensures n == |s| || IsSpace(s[n])
  {
    if s == [] || IsSpace(s[0]) then 0 else 1 + WordEnd(s[1..])
  }

  /** strings.Fields: the maximal runs of non-space characters of `s`,
      in order. */
  function Fields(s: string): (fs: seq<string>)
    ensures forall i :: 0 <= i < |fs| ==> fs[i] != [] && NoSpace(fs[i])
    decreases |s|
  {
    if s == [] then []
    else if IsSpace(s[0]) then Fields(s[1..])
    else
      var n := WordEnd(s);
      [s[..n]] + Fields(s[n..])
  }

  lemma {:induction false} WordEndOfWord(w: string, t: string)
    requires NoSpace(w)
    requires t == [] || IsSpace(t[0])
    ensures WordEnd(w + t) == |w|
  {
    if w != [] {
      WordEndOfWord(w[1..], t);
      assert (w + t)[1..] == w[1..] + t;
    } else {
      assert w + t == t;
    }
  }

  predicate AllSpace(s: string)
  {
    forall i :: 0 <= i < |s| ==> IsSpace(s[i])
  }

  /** `seps[0] + words[0] + seps[1] + ... + words[n - 1] + seps[n]`. */
  function Weave(seps: seq<string>, words: seq<string>): string
    requires |seps| == |words| + 1
  {
    if words == [] then seps[0] else seps[0] + words[0] + Weave(seps[1..], words[1..])
  }

  /** White-space gaps between words: the outer two may be empty, the inner
      ones may not. */
  predicate Gaps(seps: seq<string>)
  {
    |seps| >= 1 &&
    (forall i :: 0 <= i < |seps| ==> AllSpace(seps[i])) &&
    (forall i :: 0 < i < |seps| - 1 ==> seps[i] != [])
  }

  predicate Words(words: seq<string>)
  {
    forall i :: 0 <= i < |words| ==> words[i] != [] && NoSpace(words[i])
  }

  /** Leading white space does not change the fields. */
  lemma {:induction false} FieldsSkipSpace(sp: string, t: string)
    requires AllSpace(sp)
    ensures Fields(sp + t) == Fields(t)
  {
    if sp != [] {
      assert (sp + t)[1..] == sp[1..] + t;
      FieldsSkipSpace(sp[1..], t);
    } else {
      assert sp + t == t;
    }
  }

  /** A word followed by white space or nothing is the first field. */
  lemma FieldsOfWord(w: string, t: string)
    requires w != [] && NoSpace(w)
    requires t == [] || IsSpace(t[0])
    ensures Fields(w + t) == [w] + Fields(t)
  {
    WordEndOfWord(w, t);
    assert (w + t)[..|w|] == w;
    assert (w + t)[|w|..] == t;
  }

  lemma GapsTail(seps: seq<string>)
    requires Gaps(seps) && |seps| > 1
    ensures Gaps(seps[1..])
  {
    forall i | 0 <= i < |seps| - 1
      ensures seps[1..][i] == seps[i + 1]
    {
    }
  }

  /** Fields gives back the words of any white-space weave: runs of spaces,
      tabs or other white space between words, and at either end, are all
      dropped alike. */
  lemma {:induction false} FieldsOfWeave(seps: seq<string>, words: seq<string>)
    requires |seps| == |words| + 1 && Gaps(seps) && Words(words)
    ensures Fields(Weave(seps, words)) == words
  {
    if words == [] {
      FieldsSkipSpace(seps[0], "");
      assert seps[0] + "" == seps[0];
    } else {
      var t := Weave(seps[1..], words[1..]);
      GapsTail(seps);
      assert t == [] || IsSpace(t[0]) by {
        if words[1..] != [] {
          assert seps[1] != [] && IsSpace(seps[1][0]);
          assert t == seps[1] + (words[1..][0] + Weave(seps[2..], words[2..]));
        }
      }
      FieldsOfWeave(seps[1..], words[1..]);
      FieldsOfWord(words[0], t);
      assert Weave(seps, words) == seps[0] + (words[0] + t);
      FieldsSkipSpace(seps[0], words[0] + t);
      assert words == [words[0]] + words[1..];
    }
  }

  /** A white-space character glued to the front of the first gap. */
  lemma GapsSpace(x: char, g: seq<string>)
    requires Gaps(g) && IsSpace(x)
    ensures Gaps([[x] + g[0]] + g[1..])
  {
    var seps := [[x] + g[0]] + g[1..];
    assert AllSpace(seps[0]) by {
      assert forall k :: 0 < k < |seps[0]| ==> seps[0][k] == g[0][k - 1];
    }
    forall i | 0 < i < |seps|
      ensures seps[i] == g[i]
    {
    }
  }

  lemma {:induction false} WeaveSpace(x: char, g: seq<string>, f: seq<string>)
    requires |g| == |f| + 1
    ensures Weave([[x] + g[0]] + g[1..], f) == [x] + Weave(g, f)
  {
    var seps := [[x] + g[0]] + g[1..];
    assert seps[0] == [x] + g[0] && seps[1..] == g[1..];
    if f != [] {
      var rest := Weave(g[1..], f[1..]);
      calc {
        Weave(seps, f);
        seps[0] + f[0] + Weave(seps[1..], f[1..]);
        ([x] + g[0]) + f[0] + rest;
        [x] + (g[0] + f[0] + rest);
        [x] + Weave(g, f);
      }
    }
  }

  /** An empty gap in front of gaps whose first gap is non-empty when a
      word follows it. */
  lemma GapsWord(g: seq<string>, more: bool)
    requires Gaps(g)
    requires more ==> g[0] != []
    requires |g| == 1 ==> !more
    ensures |g| > 1 ==> more ==> Gaps([""] + g)
    ensures |g| == 1 ==> Gaps([""] + g)
  {
    var seps := [""] + g;
    forall i | 0 < i < |seps|
      ensures seps[i] == g[i - 1]
    {
    }
  }

  lemma WeaveWord(w: string, g: seq<string>, f: seq<string>)
    requires |g| == |f| + 1
    ensures Weave([""] + g, [w] + f) == w + Weave(g, f)
  {
    var seps, words := [""] + g, [w] + f;
    assert seps[0] == "" && words[0] == w;
    assert seps[1..] == g && words[1..] == f;
    assert Weave(seps, words) == seps[0] + words[0] + Weave(seps[1..], words[1..]);
    assert "" + w == w;
  }

  /** FieldGaps when `s` starts with white space, from its result on the rest. */
  lemma FieldGapsSpace(s: string, g: seq<string>)
    requires s != [] && IsSpace(s[0])
    requires |g| == |Fields(s[1..])| + 1 && Gaps(g) && Weave(g, Fields(s[1..])) == s[1..]
    ensures |[[s[0]] + g[0]] + g[1..]| == |Fields(s)| + 1
    ensures Gaps([[s[0]] + g[0]] + g[1..])
    ensures Weave([[s[0]] + g[0]] + g[1..], Fields(s)) == s
  {
    GapsSpace(s[0], g);
    WeaveSpace(s[0], g, Fields(s[1..]));
    assert s == [s[0]] + s[1..];
  }

  /** The fields of a string that starts with a word: that word, then the
      fields of the rest, which starts with white space if it has fields. */
  lemma FieldsWordStart(s: string)
    requires s != [] && !IsSpace(s[0])
    ensures Fields(s) == [s[..WordEnd(s)]] + Fields(s[WordEnd(s)..])
    ensures Fields(s[WordEnd(s)..]) != [] ==> IsSpace(s[WordEnd(s)..][0])
  {
  }

  /** A word in front of a weave, joined by an empty first gap. */
  lemma WeaveWordGaps(w: string, t: string, g: seq<string>, f: seq<string>)
    requires |g| == |f| + 1 && Gaps(g) && Weave(g, f) == t
    requires f != [] ==> g[0] != []
    ensures Gaps([""] + g)
    ensures Weave([""] + g, [w] + f) == w + t
  {
    GapsWord(g, f != []);
    WeaveWord(w, g, f);
  }

  /** FieldGaps when `s` starts with a word, from its result after the word. */
  lemma FieldGapsWord(s: string, g: seq<string>)
    requires s != [] && !IsSpace(s[0])
    requires var t := s[WordEnd(s)..];
      |g| == |Fields(t)| + 1 && Gaps(g) && Weave(g, Fields(t)) == t &&
      (t != [] && IsSpace(t[0]) ==> g[0] != [])
    ensures |[""] + g| == |Fields(s)| + 1
    ensures Gaps([""] + g)
    ensures Weave([""] + g, Fields(s)) == s
  {
    var n := WordEnd(s);
    var w, t := s[..n], s[n..];
    FieldsWordStart(s);
    WeaveWordGaps(w, t, g, Fields(t));
    assert w + t == s;
  }

  /** The white space around and between the fields of `s`: `s` is its
      fields woven with these gaps, so Fields drops nothing but white space. */
  function FieldGaps(s: string): (seps: seq<string>)
    ensures |seps| == |Fields(s)| + 1 && Gaps(seps)
    ensures Weave(seps, Fields(s)) == s
    ensures s != [] && IsSpace(s[0]) ==> seps[0] != []
    decreases |s|
  {
    if s == [] then [""]
    else if IsSpace(s[0]) then
      var g := FieldGaps(s[1..]);
      FieldGapsSpace(s, g);
      [[s[0]] + g[0]] + g[1..]
    else
      var g := FieldGaps(s[WordEnd(s)..]);
      FieldGapsWord(s, g);
      [""] + g
  }

  /** Go's `<` on strings: lexicographic comparison. Comparing code points
      in order agrees with comparing the UTF-8 bytes Go compares. */
  predicate StrLess(a: string, b: string)
    ensures StrLess(a, b) ==> a != b
    ensures a < b ==> StrLess(a, b)
  {
    if a == [] then b != []
    else if b == [] then false
    else if a[0] != b[0] then a[0] < b[0]
    else StrLess(a[1..], b[1..])
  }

  lemma {:induction false} StrLessIrreflexive(a: string)
    ensures !StrLess(a, a)
  {
    if a != [] {
      StrLessIrreflexive(a[1..]);
    }
  }

  lemma {:induction false} StrLessTransitive(a: string, b: string, c: string)
    requires StrLess(a, b) && StrLess(b, c)
    ensures StrLess(a, c)
  {
    if a != [] && a[0] == b[0] && b[0] == c[0] {
      StrLessTransitive(a[1..], b[1..], c[1..]);
    }
  }

  /** Any two distinct strings are ordered one way or the other. */
  lemma {:induction false} StrLessTotal(a: string, b: string)
    ensures a == b || StrLess(a, b) || StrLess(b, a)
  {
    if a != [] && b != [] && a[0] == b[0] {
      StrLessTotal(a[1..], b[1..]);
      assert a == [a[0]] + a[1..] && b == [b[0]] + b[1..];
    }
  }

  predicate IsDigit(c: char)
  {
    '0' <= c <= '9'
  }

  function DigitChar(d: nat): (c: char)
    requires d < 10
    ensures IsDigit(c)
  {
    (d + '0' as int) as char
  }

  /** The decimal digits of `n`, most significant first, without leading zeros. */
  function NatDecimal(n: nat): (s: string)
    ensures s != []
    ensures forall i :: 0 <= i < |s| ==> IsDigit(s[i])
    ensures s[0] == '0' <==> n == 0
    ensures |s| > 1 ==> s[0] != '0'
  {
    if n < 10 then [DigitChar(n)] else NatDecimal(n / 10) + [DigitChar(n % 10)]
  }

  /** fmt's `%d` verb: a minus sign for negative numbers, then the digits. */
  function Decimal(n: int): (s: string)
    ensures s != []
    ensures n < 0 <==> s[0] == '-'
    ensures forall i :: 0 <= i < |s| ==> IsDigit(s[i]) || (i == 0 && s[i] == '-')
    ensures n < 0 ==> |s| > 1 && s[1] != '0'
    ensures n >= 0 && |s| > 1 ==> s[0] != '0'
  {
    if n < 0 then "-" + NatDecimal(-n) else NatDecimal(n)
  }

  function ParseNat(s: string): nat
    requires forall i :: 0 <= i < |s| ==> IsDigit(s[i])
  {
    if s == [] then 0
    else
      assert IsDigit(s[|s| - 1]);
      ParseNat(s[..|s| - 1]) * 10 + (s[|s| - 1] as int - '0' as int)
  }

  /** Reads back what `%d` printed. */
  function ParseDecimal(s: string): int
  {
    if s != [] && s[0] == '-' && forall i :: 1 <= i < |s| ==> IsDigit(s[i]) then -(ParseNat(s[1..]) as int)
    else if forall i :: 0 <= i < |s| ==> IsDigit(s[i]) then ParseNat(s)
    else 0
  }

  lemma {:induction false} ParseNatDecimal(n: nat)
    ensures ParseNat(NatDecimal(n)) == n
  {
    if n >= 10 {
      ParseNatDecimal(n / 10);
      var s := NatDecimal(n);
      assert s[..|s| - 1] == NatDecimal(n / 10);
    }
  }

  /** `%d` loses nothing: its output parses back to the number. */
  lemma DecimalRoundTrip(n: int)
    ensures ParseDecimal(Decimal(n)) == n
  {
    if n < 0 {
      ParseNatDecimal(-n);
      assert Decimal(n)[1..] == NatDecimal(-n);
    } else {
      ParseNatDecimal(n);
      assert Decimal(n)[0] != '-';
    }
  }
}
