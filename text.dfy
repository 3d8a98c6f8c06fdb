/** String operations of the JavaScript runtime that the highlighter and the popup build on:
    the `\s` character class, `trim`, `replace(/[class]+/g, c)`, `join` and decimal rendering
    of numbers in template literals. */
module TextUtil {

  /** The characters JavaScript's `\s` matches and `String.prototype.trim` strips: the
      ECMAScript WhiteSpace set (tab, vertical tab, form feed, space, no-break space, the
      byte-order mark and category Zs) and the LineTerminator set (LF, CR, LS, PS). */
  const Spaces: set<char> := {
    '\U{9}', '\U{A}', '\U{B}', '\U{C}', '\U{D}', ' ', '\U{A0}', '\U{1680}',
    '\U{2000}', '\U{2001}', '\U{2002}', '\U{2003}', '\U{2004}', '\U{2005}', '\U{2006}',
    '\U{2007}', '\U{2008}', '\U{2009}', '\U{200A}', '\U{2028}', '\U{2029}', '\U{202F}',
    '\U{205F}', '\U{3000}', '\U{FEFF}'
  }

  predicate IsSpace(c: char)
  {
    c in Spaces
  }

  /** The characters `[a-z0-9]` keeps. */
  predicate IsSlugChar(c: char)
  {
    'a' <= c <= 'z' || '0' <= c <= '9'
  }

  /** The character classes whose runs are replaced: `/\s+/g` in `getSnippet`,
      `/[^a-z0-9]+/g` in `slugify` and `/\n{3,}/g` in `htmlToMd`. */
  datatype Class = Whitespace | NonSlug | Newline

  predicate In(c: char, k: Class)
  {
    match k
    case Whitespace => IsSpace(c)
    case NonSlug => !IsSlugChar(c)
    case Newline => c == '\n'
  }

  /** `!s.trim()`: the string is empty or made of whitespace only. */
  predicate IsBlank(s: string)
  {
    forall i :: 0 <= i < |s| ==> IsSpace(s[i])
  }

  /** The characters of `s` outside the class `k`, in order. */
  function Without(s: string, k: Class): string
  {
    if s == [] then [] else Kept(s[0], k) + Without(s[1..], k)
  }

  function Kept(c: char, k: Class): string
  {
    if In(c, k) then [] else [c]
  }

  lemma {:induction false} WithoutAppend(s: string, t: string, k: Class)
    ensures Without(s + t, k) == Without(s, k) + Without(t, k)
  {
    if s == [] {
      assert s + t == t;
    } else {
      var u := s[1..];
      assert (s + t)[1..] == u + t;
      WithoutAppend(u, t, k);
      calc {
        Without(s + t, k);
        Kept(s[0], k) + Without(u + t, k);
        Kept(s[0], k) + (Without(u, k) + Without(t, k));
        (Kept(s[0], k) + Without(u, k)) + Without(t, k);
      }
    }
  }

  lemma {:induction false} WithoutAll(s: string, k: Class)
    requires forall i :: 0 <= i < |s| ==> In(s[i], k)
    ensures Without(s, k) == []
  {
    if s != [] {
      WithoutAll(s[1..], k);
    }
  }

  /** The length of the longest prefix of `s` inside the class `k`. */
  function LeadingRun(s: string, k: Class): (n: nat)
    ensures n <= |s|
    ensures forall i :: 0 <= i < n ==> In(s[i], k)
    ensures n == |s| || !In(s[n], k)
  {
    if s == [] || !In(s[0], k) then 0 else 1 + LeadingRun(s[1..], k)
  }

  /** The length of the longest suffix of `s` inside the class `k`. */
  function TrailingRun(s: string, k: Class): (n: nat)
    ensures n <= |s|
    ensures forall i :: |s| - n <= i < |s| ==> In(s[i], k)
    ensures n == |s| || !In(s[|s| - n - 1], k)
  {
    if s == [] || !In(s[|s| - 1], k) then 0 else 1 + TrailingRun(s[..|s| - 1], k)
  }

  /** Where `trim` stops keeping characters: after the last character that is not
      whitespace, or at the end of the leading whitespace when there is none. */
  function TrimEnd(s: string): (b: nat)
    ensures LeadingRun(s, Whitespace) <= b <= |s|
    ensures forall i :: b <= i < |s| ==> IsSpace(s[i])
    ensures b == LeadingRun(s, Whitespace) || !IsSpace(s[b - 1])
  {
    var a := LeadingRun(s, Whitespace);
    if a == |s| then |s|
    else
      assert !In(s[a], Whitespace);
      |s| - TrailingRun(s, Whitespace)
  }

  /** `String.prototype.trim`: the text between the leading and the trailing whitespace. */
  function Trim(s: string): (r: string)
    ensures r == [] || (!IsSpace(r[0]) && !IsSpace(r[|r| - 1]))
    ensures r == [] <==> IsBlank(s)
  {
    s[LeadingRun(s, Whitespace)..TrimEnd(s)]
  }

  /** Trim keeps every character that is not whitespace, in order. */
  lemma TrimKeeps(s: string)
    ensures Without(Trim(s), Whitespace) == Without(s, Whitespace)
  {
    var a, b := LeadingRun(s, Whitespace), TrimEnd(s);
    WithoutInfix(s, a, b, Whitespace);
  }

  /** Cutting away characters of the class on both sides keeps the characters outside it. */
  lemma WithoutInfix(s: string, a: nat, b: nat, k: Class)
    requires a <= b <= |s|
    requires forall i :: 0 <= i < a ==> In(s[i], k)
    requires forall i :: b <= i < |s| ==> In(s[i], k)
    ensures Without(s[a..b], k) == Without(s, k)
  {
    var pre, r, post := s[..a], s[a..b], s[b..];
    assert s == pre + (r + post);
    WithoutAll(pre, k);
    WithoutAll(post, k);
    WithoutAppend(r, post, k);
    WithoutAppend(pre, r + post, k);
  }

  /** The whitespace of `s` is single spaces, none next to another. */
  predicate SingleSpaced(s: string)
  {
    && (forall i :: 0 <= i < |s| && IsSpace(s[i]) ==> s[i] == ' ')
    && (forall i :: 0 <= i < |s| - 1 ==> !(IsSpace(s[i]) && IsSpace(s[i + 1])))
  }

  /** Trimming a string whose whitespace is single spaces keeps it so. */
  lemma TrimKeepsSingleSpaced(c: string)
    requires SingleSpaced(c)
    ensures SingleSpaced(Trim(c))
  {
    InfixSingleSpaced(c, LeadingRun(c, Whitespace), Trim(c));
  }

  /** Every contiguous piece of a single-spaced string is single-spaced. */
  lemma InfixSingleSpaced(c: string, a: nat, n: string)
    requires a + |n| <= |c| && n == c[a..a + |n|] && SingleSpaced(c)
    ensures SingleSpaced(n)
  {
    forall i | 0 <= i < |n|
      ensures n[i] == c[a + i]
    {
    }
  }

  /** Replaces every maximal run of characters of the class `k` by the one character
      `rep`, as `s.replace(/[class]+/g, rep)` does. */
  function CollapseRuns(s: string, k: Class, rep: char): (r: string)
    requires In(rep, k)
    ensures |r| <= |s|
    ensures r == [] <==> s == []
    ensures s != [] ==> r[0] == (if In(s[0], k) then rep else s[0])
    ensures forall i :: 0 <= i < |r| && In(r[i], k) ==> r[i] == rep
    ensures forall i :: 0 <= i < |r| - 1 ==> !(In(r[i], k) && In(r[i + 1], k))
    decreases |s|
  {
    if s == [] then []
    else if In(s[0], k) then [rep] + CollapseRuns(s[LeadingRun(s, k)..], k, rep)
    else [s[0]] + CollapseRuns(s[1..], k, rep)
  }

  /** Collapsing runs keeps every character outside the class, in order. */
  lemma {:induction false} CollapseKeeps(s: string, k: Class, rep: char)
    requires In(rep, k)
    ensures Without(CollapseRuns(s, k, rep), k) == Without(s, k)
    decreases |s|
  {
    if s != [] {
      if In(s[0], k) {
        var n := LeadingRun(s, k);
        var tail := CollapseRuns(s[n..], k, rep);
        assert CollapseRuns(s, k, rep) == [rep] + tail;
        CollapseKeeps(s[n..], k, rep);
        KeepsRun(s, n, tail, k, rep);
      } else {
        var tail := CollapseRuns(s[1..], k, rep);
        assert CollapseRuns(s, k, rep) == [s[0]] + tail;
        CollapseKeeps(s[1..], k, rep);
        KeepsOne(s, tail, k);
      }
    }
  }

  /** A run of the class standing for the first `n` characters keeps what is outside it. */
  lemma KeepsRun(s: string, n: nat, tail: string, k: Class, rep: char)
    requires In(rep, k) && n <= |s|
    requires forall i :: 0 <= i < n ==> In(s[i], k)
    requires Without(tail, k) == Without(s[n..], k)
    ensures Without([rep] + tail, k) == Without(s, k)
  {
    WithoutAppend([rep], tail, k);
    assert s == s[..n] + s[n..];
    WithoutAppend(s[..n], s[n..], k);
    WithoutAll(s[..n], k);
  }

  /** The first character kept in front of the rest keeps what is outside the class. */
  lemma KeepsOne(s: string, tail: string, k: Class)
    requires s != [] && Without(tail, k) == Without(s[1..], k)
    ensures Without([s[0]] + tail, k) == Without(s, k)
  {
    WithoutAppend([s[0]], tail, k);
    WithoutAppend([s[0]], s[1..], k);
    assert [s[0]] + s[1..] == s;
  }

  /** `parts.join(sep)`. */
  function Join(parts: seq<string>, sep: string): string
  {
    if parts == [] then "" else if |parts| == 1 then parts[0] else parts[0] + sep + Join(parts[1..], sep)
  }

  /** The length of the longest prefix of `s` outside the class `k`. */
  function LeadingOut(s: string, k: Class): (n: nat)
    ensures n <= |s|
    ensures forall i :: 0 <= i < n ==> !In(s[i], k)
    ensures n == |s| || In(s[n], k)
  {
    if s == [] || In(s[0], k) then 0 else 1 + LeadingOut(s[1..], k)
  }

  /** The words of `s`: its maximal runs of characters outside the class `k`, in order,
      as the runs of the class separate them. */
  function Words(s: string, k: Class): (ws: seq<string>)
    ensures forall j :: 0 <= j < |ws| ==> ws[j] != [] && forall i :: 0 <= i < |ws[j]| ==> !In(ws[j][i], k)
    decreases |s|
  {
    var t := s[LeadingRun(s, k)..];
    if t == [] then []
    else
      var n := LeadingOut(t, k);
      [t[..n]] + Words(t[n..], k)
  }

  /** A prefix outside the class passes through `CollapseRuns` unchanged. */
  lemma {:induction false} CollapseOut(s: string, n: nat, k: Class, rep: char)
    requires In(rep, k) && n <= |s|
    requires forall i :: 0 <= i < n ==> !In(s[i], k)
    ensures CollapseRuns(s, k, rep) == s[..n] + CollapseRuns(s[n..], k, rep)
    decreases n
  {
    if n == 0 {
      assert s[..0] == [] && s[0..] == s;
    } else {
      CollapseOut(s[1..], n - 1, k, rep);
      assert s[1..][n - 1..] == s[n..];
      assert s[..n] == [s[0]] + s[1..][..n - 1];
    }
  }

  /** One more word in front of a nonempty list of words. */
  lemma JoinCons(w: string, ws: seq<string>, sep: string)
    requires ws != []
    ensures Join([w] + ws, sep) == w + sep + Join(ws, sep)
  {
    assert ([w] + ws)[1..] == ws;
  }

  /** Skipping a leading run of the class does not change the words. */
  lemma WordsSkip(s: string, k: Class)
    ensures Words(s, k) == Words(s[LeadingRun(s, k)..], k)
  {
    var v := s[LeadingRun(s, k)..];
    assert v == [] || v[0..] == v;
  }

  /** A string starting outside the class starts with its first word. */
  lemma WordsFirst(s: string, k: Class)
    requires s != [] && !In(s[0], k)
    ensures Words(s, k) == [s[..LeadingOut(s, k)]] + Words(s[LeadingOut(s, k)..], k)
  {
    assert s[0..] == s;
  }

  /** A leading run of the class collapses to one `rep`. */
  lemma CollapseFirstRun(s: string, k: Class, rep: char)
    requires In(rep, k) && s != [] && In(s[0], k)
    ensures CollapseRuns(s, k, rep) == [rep] + CollapseRuns(s[LeadingRun(s, k)..], k, rep)
  {
  }

  lemma Prepend(r: string, rv: string, sep: string, j: string, tail: string)
    requires r == sep + rv && rv == j + tail
    ensures r == sep + j + tail
  {
  }

  /** Collapsing a string that is empty or starts outside the class gives its words joined
      by `rep`, followed by one `rep` when it ends in a run of the class. */
  lemma {:induction false} CollapseWordsFrom(s: string, k: Class, rep: char)
    requires In(rep, k) && (s == [] || !In(s[0], k))
    ensures CollapseRuns(s, k, rep) ==
      Join(Words(s, k), [rep]) + (if s != [] && In(s[|s| - 1], k) then [rep] else [])
    decreases |s|, 1
  {
    if s != [] {
      var n := LeadingOut(s, k);
      if n == |s| {
        CollapseOneWord(s, k, rep);
      } else {
        var u := s[n..];
        CollapseWordsRun(u, k, rep);
        CollapseWordThen(s, k, rep);
      }
    }
  }

  /** A nonempty string without the class is its own one word and collapses to itself. */
  lemma CollapseOneWord(s: string, k: Class, rep: char)
    requires In(rep, k) && s != [] && LeadingOut(s, k) == |s|
    ensures CollapseRuns(s, k, rep) == Join(Words(s, k), [rep]) && !In(s[|s| - 1], k)
  {
    WordsFirst(s, k);
    CollapseOut(s, |s|, k, rep);
    assert s[..|s|] == s;
    assert Words(s[|s|..], k) == [];
  }

  /** The step of `CollapseWordsFrom` past the first word, given the collapse of the rest. */
  lemma CollapseWordThen(s: string, k: Class, rep: char)
    requires In(rep, k) && s != [] && !In(s[0], k) && LeadingOut(s, k) < |s|
    requires var u := s[LeadingOut(s, k)..];
      CollapseRuns(u, k, rep) ==
        [rep] + Join(Words(u, k), [rep]) + (if Words(u, k) != [] && In(u[|u| - 1], k) then [rep] else [])
    ensures CollapseRuns(s, k, rep) ==
      Join(Words(s, k), [rep]) + (if In(s[|s| - 1], k) then [rep] else [])
  {
    var n := LeadingOut(s, k);
    var u := s[n..];
    WordsFirst(s, k);
    CollapseOut(s, n, k, rep);
    WordsNone(u, k);
    assert s[|s| - 1] == u[|u| - 1];
    JoinAfterWord(CollapseRuns(s, k, rep), CollapseRuns(u, k, rep), s[..n], Words(u, k), rep,
      if Words(u, k) != [] && In(u[|u| - 1], k) then [rep] else [],
      if In(s[|s| - 1], k) then [rep] else []);
  }

  /** A word in front of what the rest collapsed to: the words joined, and the separator
      after the last word exactly when the rest ends in a run. */
  lemma JoinAfterWord(r: string, ru: string, w: string, ws: seq<string>, rep: char, tailU: string, tail: string)
    requires r == w + ru && ru == [rep] + Join(ws, [rep]) + tailU
    requires ws == [] ==> tailU == [] && tail == [rep]
    requires ws != [] ==> tailU == tail
    ensures r == Join([w] + ws, [rep]) + tail
  {
    if ws == [] {
      assert [w] + ws == [w];
    } else {
      JoinCons(w, ws, [rep]);
    }
  }

  /** `CollapseRuns` replaces exactly the separators of the words: one `rep` for the run in
      front of the first word, one between each two words, one for the run after the last,
      and a single `rep` for a string made only of the class. */
  lemma CollapseWords(s: string, k: Class, rep: char)
    requires In(rep, k)
    ensures CollapseRuns(s, k, rep) ==
      (if s != [] && In(s[0], k) then [rep] else [])
      + Join(Words(s, k), [rep])
      + (if Words(s, k) != [] && In(s[|s| - 1], k) then [rep] else [])
  {
    if s != [] && In(s[0], k) {
      CollapseWordsRun(s, k, rep);
    } else {
      CollapseWordsFrom(s, k, rep);
      WordsNone(s, k);
      assert [] + Join(Words(s, k), [rep]) == Join(Words(s, k), [rep]);
    }
  }

  /** A string has no words exactly when it is made of the class only. */
  lemma WordsNone(s: string, k: Class)
    ensures Words(s, k) == [] <==> LeadingRun(s, k) == |s|
  {
  }

  /** `CollapseWords` for a string starting with a run of the class. */
  lemma {:induction false} CollapseWordsRun(s: string, k: Class, rep: char)
    requires In(rep, k) && s != [] && In(s[0], k)
    ensures CollapseRuns(s, k, rep) ==
      [rep] + Join(Words(s, k), [rep]) + (if Words(s, k) != [] && In(s[|s| - 1], k) then [rep] else [])
    decreases |s|, 0
  {
    var v := s[LeadingRun(s, k)..];
    WordsNone(s, k);
    if v == [] {
      CollapseAllClass(s, k, rep);
      assert [rep] + Join([], [rep]) + [] == [rep];
    } else {
      var tail := if In(v[|v| - 1], k) then [rep] else [];
      WordsSkip(s, k);
      CollapseFirstRun(s, k, rep);
      CollapseWordsFrom(v, k, rep);
      assert s[|s| - 1] == v[|v| - 1];
      Prepend(CollapseRuns(s, k, rep), CollapseRuns(v, k, rep), [rep], Join(Words(v, k), [rep]), tail);
    }
  }

  /** A nonempty string made of the class only collapses to a single `rep`. */
  lemma CollapseAllClass(s: string, k: Class, rep: char)
    requires In(rep, k) && s != [] && LeadingRun(s, k) == |s|
    ensures CollapseRuns(s, k, rep) == [rep]
  {
    assert In(s[0], k);
    assert s[|s|..] == [];
  }

  /** Words joined by a separator start with the first word's first character and end
      with the last word's last character. */
  lemma {:induction false} JoinEnds(ws: seq<string>, sep: string)
    requires ws != [] && forall j :: 0 <= j < |ws| ==> ws[j] != []
    ensures var r := Join(ws, sep); r != [] && r[0] == ws[0][0] && r[|r| - 1] == ws[|ws| - 1][|ws[|ws| - 1]| - 1]
    decreases |ws|
  {
    if |ws| > 1 {
      JoinEnds(ws[1..], sep);
    }
  }

  /** The words joined by a separator, with at most one extra separator character at
      either end: the separators carry no character outside the class and the words no
      character inside it. */
  lemma CollapseShape(s: string, k: Class, rep: char)
    requires In(rep, k)
    ensures var j := Join(Words(s, k), [rep]);
      && (j == [] <==> Words(s, k) == [])
      && (j != [] ==> !In(j[0], k) && !In(j[|j| - 1], k))
      && (Words(s, k) == [] ==> CollapseRuns(s, k, rep) == (if s == [] then [] else [rep]))
  {
    var ws := Words(s, k);
    CollapseWords(s, k, rep);
    if ws != [] {
      JoinEnds(ws, [rep]);
      assert !In(ws[0][0], k);
      assert !In(ws[|ws| - 1][|ws[|ws| - 1]| - 1], k);
    }
  }

  /** The leading run of the class is the prefix of length `n` when `n` characters of the
      class are followed by the end or by a character outside it. */
  lemma LeadingRunIs(s: string, k: Class, n: nat)
    requires n <= |s| && forall i :: 0 <= i < n ==> In(s[i], k)
    requires n == |s| || !In(s[n], k)
    ensures LeadingRun(s, k) == n
  {
  }

  /** Trimming a text with no whitespace at either end, between two pieces of whitespace,
      gives that text. */
  lemma TrimAround(a: string, j: string, b: string)
    requires IsBlank(a) && IsBlank(b)
    requires j == [] || (!IsSpace(j[0]) && !IsSpace(j[|j| - 1]))
    ensures Trim(a + j + b) == j
  {
    var x := a + j + b;
    if j == [] {
      assert x == a + b;
      assert IsBlank(x);
    } else {
      assert x[|a|] == j[0];
      LeadingRunIs(x, Whitespace, |a|);
      var e := TrimEnd(x);
      assert x[|a| + |j| - 1] == j[|j| - 1];
      assert e == |a| + |j|;
      assert x[|a|..|a| + |j|] == j;
    }
  }

  /** `text.replace(/\s+/g, ' ').trim()` is the words of the text joined by single
      spaces. */
  lemma TrimWords(s: string)
    ensures Trim(CollapseRuns(s, Whitespace, ' ')) == Join(Words(s, Whitespace), " ")
  {
    CollapseWords(s, Whitespace, ' ');
    CollapseShape(s, Whitespace, ' ');
    TrimAround(if s != [] && IsSpace(s[0]) then " " else [],
      Join(Words(s, Whitespace), " "),
      if Words(s, Whitespace) != [] && IsSpace(s[|s| - 1]) then " " else []);
  }

  /** A single decimal digit. */
  function Digit(d: nat): char
    requires d < 10
  {
    "0123456789"[d]
  }

  /** The decimal rendering of a natural number, as `${n}` produces it. */
  function NatToString(n: nat): (r: string)
    ensures r != []
    ensures forall i :: 0 <= i < |r| ==> '0' <= r[i] <= '9'
  {
    if n < 10 then [Digit(n)] else NatToString(n / 10) + [Digit(n % 10)]
  }
}
