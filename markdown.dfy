/** The popup's text conversions: `htmlToMd`, which turns the nodes a highlight's HTML
    stands for into Markdown, and `slugify`, which turns a page title into a file name. */
module Markdown {
  import opened TextUtil
  import opened Dom

  // ---------------------------------------------------------------------------------------
  // Escaping text.
  // ---------------------------------------------------------------------------------------

  /** The characters Markdown would read as markup: `_`, `*`, the backquote, `[` and `]`. */
  predicate IsSpecial(c: char)
  {
    c == '_' || c == '*' || c == '`' || c == '[' || c == ']'
  }

  /** `text.replace(/([_*`[\]])/g, '\\$1')`: a backslash before every special character. */
  function Escape(s: string): (r: string)
    ensures |r| >= |s|
    ensures r != [] ==> !IsSpecial(r[0])
    ensures forall i :: 0 <= i < |r| && IsSpecial(r[i]) ==> 0 < i && r[i - 1] == '\\'
  {
    if s == [] then []
    else
      var rest := Escape(s[1..]);
      var head := if IsSpecial(s[0]) then ['\\', s[0]] else [s[0]];
      assert forall i :: |head| <= i < |head + rest| ==> (head + rest)[i] == rest[i - |head|];
      head + rest
  }

  /** Reading escaped text back: a backslash followed by a special character stands for
      that character. */
  function Unescape(t: string): string
  {
    if t == [] then []
    else if |t| >= 2 && t[0] == '\\' && IsSpecial(t[1]) then [t[1]] + Unescape(t[2..])
    else [t[0]] + Unescape(t[1..])
  }

  /** Escaping loses nothing: removing the added backslashes gives the text back. */
  lemma {:induction false} UnescapeEscape(s: string)
    ensures Unescape(Escape(s)) == s
  {
    if s != [] {
      var rest := Escape(s[1..]);
      UnescapeEscape(s[1..]);
      if IsSpecial(s[0]) {
        assert (['\\', s[0]] + rest)[2..] == rest;
      } else {
        assert ([s[0]] + rest)[1..] == rest;
      }
    }
  }

  // ---------------------------------------------------------------------------------------
  // convert
  // ---------------------------------------------------------------------------------------

  /** The tags whose content `convert` wraps in emphasis delimiters. */
  predicate IsInline(tag: string)
  {
    tag == "STRONG" || tag == "B" || tag == "EM" || tag == "I" || tag == "CODE"
  }

  /** The tags `convert` puts on lines of their own. */
  predicate IsBlock(tag: string)
  {
    tag == "P" || tag == "DIV" || tag == "SECTION" || tag == "ARTICLE" || tag == "LI"
  }

  /** The delimiter around the content of an inline element. */
  function Delimiter(tag: string): string
  {
    if tag == "STRONG" || tag == "B" then "**" else if tag == "EM" || tag == "I" then "_" else "`"
  }

  /** `node.href`, taken as the attribute's text. */
  function Href(attrs: map<string, string>): string
  {
    if "href" in attrs then attrs["href"] else ""
  }

  /** The marker in front of the item numbered `k` of a list. */
  function Marker(ordered: bool, k: nat): string
  {
    if ordered then NatToString(k) + ". " else "- "
  }

  /** `convert(node)` for a text node or an element. */
  function Convert(n: Node): string
    decreases n, 0
  {
    match n
    case Text(d) => Escape(d)
    case Elem(tag, attrs, kids) =>
      var children := ConvertAll(kids);
      if IsInline(tag) then
        if children != "" then Delimiter(tag) + children + Delimiter(tag) else ""
      else if tag == "BR" then "\n"
      else if tag == "A" && Href(attrs) != "" then
        "[" + (if children != "" then children else Href(attrs)) + "](" + Href(attrs) + ")"
      else if tag == "UL" || tag == "OL" then "\n" + Join(Items(kids, tag == "OL", 1), "\n") + "\n"
      else if IsBlock(tag) then "\n" + children + "\n"
      else children
  }

  /** `Array.from(nodes).map(convert).join('')`. */
  function ConvertAll(ns: seq<Node>): string
  {
    if ns == [] then "" else Convert(ns[0]) + ConvertAll(ns[1..])
  }

  /** The lines of a list: one per element child (`node.children` skips text), its converted
      content trimmed, behind the marker numbered from `next` on. */
  function Items(kids: seq<Node>, ordered: bool, next: nat): seq<string>
  {
    if kids == [] then []
    else if kids[0].Text? then Items(kids[1..], ordered, next)
    else [ItemLine(ordered, next, kids[0])] + Items(kids[1..], ordered, next + 1)
  }

  /** The line of the list item numbered `k`: its marker, then its converted content
      trimmed. */
  function ItemLine(ordered: bool, k: nat, item: Node): (line: string)
    ensures Marker(ordered, k) <= line
    decreases item, 1
  {
    var content := Trim(Convert(item));
    PrefixOfLine(Marker(ordered, k), content);
    Marker(ordered, k) + content
  }

  /** The number of element children. */
  function Elements(kids: seq<Node>): nat
  {
    if kids == [] then 0 else (if kids[0].Elem? then 1 else 0) + Elements(kids[1..])
  }

  /** The lines of a list are one per element child, each starting with its marker, the
      markers numbered consecutively from `next`. */
  lemma {:induction false} ItemsNumbered(kids: seq<Node>, ordered: bool, next: nat)
    ensures |Items(kids, ordered, next)| == Elements(kids)
    ensures Numbered(Items(kids, ordered, next), ordered, next)
  {
    if kids != [] {
      if kids[0].Text? {
        ItemsNumbered(kids[1..], ordered, next);
        ItemsText(kids, ordered, next);
      } else {
        ItemsNumbered(kids[1..], ordered, next + 1);
        ItemsElem(kids, ordered, next);
        NumberedCons(ordered, next, ItemLine(ordered, next, kids[0]), Items(kids[1..], ordered, next + 1));
      }
    }
  }

  /** A text child gives no line. */
  lemma ItemsText(kids: seq<Node>, ordered: bool, next: nat)
    requires kids != [] && kids[0].Text?
    ensures Items(kids, ordered, next) == Items(kids[1..], ordered, next)
    ensures Elements(kids) == Elements(kids[1..])
  {
  }

  /** An element child gives the next numbered line. */
  lemma ItemsElem(kids: seq<Node>, ordered: bool, next: nat)
    requires kids != [] && kids[0].Elem?
    ensures Items(kids, ordered, next) == [ItemLine(ordered, next, kids[0])] + Items(kids[1..], ordered, next + 1)
    ensures Elements(kids) == 1 + Elements(kids[1..])
  {
  }

  /** Every line starts with its marker, the markers numbered from `next` on. */
  predicate Numbered(lines: seq<string>, ordered: bool, next: nat)
  {
    forall k :: 0 <= k < |lines| ==> Marker(ordered, next + k) <= lines[k]
  }

  /** A line numbered `next` in front of lines numbered from `next + 1` on. */
  lemma NumberedCons(ordered: bool, next: nat, line: string, rest: seq<string>)
    requires Marker(ordered, next) <= line && Numbered(rest, ordered, next + 1)
    ensures Numbered([line] + rest, ordered, next)
  {
    var lines := [line] + rest;
    forall k | 0 < k < |lines|
      ensures Marker(ordered, next + k) <= lines[k]
    {
      assert lines[k] == rest[k - 1] && next + k == next + 1 + (k - 1);
    }
  }

  lemma PrefixOfLine(m: string, t: string)
    ensures m <= m + t
  {
    assert (m + t)[..|m|] == m;
  }

  /** An ordered list becomes its items on lines of their own, one per element child,
      numbered 1, 2, 3, and so on. */
  lemma OrderedList(attrs: map<string, string>, kids: seq<Node>)
    ensures var lines := Items(kids, true, 1);
      && Convert(Elem("OL", attrs, kids)) == "\n" + Join(lines, "\n") + "\n"
      && |lines| == Elements(kids)
      && forall k :: 0 <= k < |lines| ==> NatToString(k + 1) + ". " <= lines[k]
  {
    ItemsNumbered(kids, true, 1);
    assert Numbered(Items(kids, true, 1), true, 1);
  }

  /** Bold, italic and code elements give nothing exactly when their content converts to
      nothing, and otherwise wrap it in their delimiter. */
  lemma InlineEmpty(tag: string, attrs: map<string, string>, kids: seq<Node>)
    requires IsInline(tag)
    ensures Convert(Elem(tag, attrs, kids)) == "" <==> ConvertAll(kids) == ""
    ensures ConvertAll(kids) != "" ==>
      var d := Delimiter(tag);
      Convert(Elem(tag, attrs, kids)) == d + ConvertAll(kids) + d && d != ""
  {
  }

  // ---------------------------------------------------------------------------------------
  // htmlToMd
  // ---------------------------------------------------------------------------------------

  /** No three newlines in a row. */
  predicate NoTripleNewline(s: string)
  {
    forall i :: 0 <= i < |s| - 2 ==> !(s[i] == '\n' && s[i + 1] == '\n' && s[i + 2] == '\n')
  }

  /** `s.replace(/\n{3,}/g, '\n\n')`: every run of three or more newlines becomes two. */
  function CollapseNewlines(s: string): (r: string)
    ensures NoTripleNewline(r)
    ensures s != [] && s[0] != '\n' ==> r != [] && r[0] == s[0]
    decreases |s|
  {
    if s == [] then []
    else if s[0] != '\n' then
      var rest := CollapseNewlines(s[1..]);
      HeadNoTriple(s[0], rest);
      [s[0]] + rest
    else
      var n := LeadingRun(s, Newline);
      var rest := CollapseNewlines(s[n..]);
      var run := if n >= 3 then "\n\n" else s[..n];
      RunNoTriple(run, rest);
      run + rest
  }

  lemma HeadNoTriple(c: char, rest: string)
    requires c != '\n' && NoTripleNewline(rest)
    ensures NoTripleNewline([c] + rest)
  {
    var r := [c] + rest;
    forall i | 0 < i < |r| - 2
      ensures !(r[i] == '\n' && r[i + 1] == '\n' && r[i + 2] == '\n')
    {
      assert r[i] == rest[i - 1] && r[i + 1] == rest[i] && r[i + 2] == rest[i + 1];
    }
  }

  lemma RunNoTriple(run: string, rest: string)
    requires |run| <= 2 && NoTripleNewline(rest) && (rest == [] || rest[0] != '\n')
    ensures NoTripleNewline(run + rest)
  {
    var r := run + rest;
    forall i | 0 <= i < |r| - 2
      ensures !(r[i] == '\n' && r[i + 1] == '\n' && r[i + 2] == '\n')
    {
      if i >= |run| {
        assert r[i] == rest[i - |run|] && r[i + 1] == rest[i - |run| + 1] && r[i + 2] == rest[i - |run| + 2];
      } else {
        assert r[|run|] == rest[0];
      }
    }
  }

  /** Collapsing removes newlines only: every other character stays, in order. */
  lemma {:induction false} CollapseNewlinesKeeps(s: string)
    ensures Without(CollapseNewlines(s), Newline) == Without(s, Newline)
    decreases |s|
  {
    if s != [] {
      if s[0] != '\n' {
        CollapseNewlinesKeeps(s[1..]);
        WithoutAppend([s[0]], CollapseNewlines(s[1..]), Newline);
        WithoutAppend([s[0]], s[1..], Newline);
        assert [s[0]] + s[1..] == s;
      } else {
        var n := LeadingRun(s, Newline);
        var run := if n >= 3 then "\n\n" else s[..n];
        CollapseNewlinesKeeps(s[n..]);
        WithoutAppend(run, CollapseNewlines(s[n..]), Newline);
        assert s == s[..n] + s[n..];
        WithoutAppend(s[..n], s[n..], Newline);
        WithoutAll(s[..n], Newline);
        WithoutAll(run, Newline);
      }
    }
  }

  /** Removing newlines and then all whitespace is removing all whitespace. */
  lemma {:induction false} WithoutNewlinesFirst(s: string)
    ensures Without(Without(s, Newline), Whitespace) == Without(s, Whitespace)
  {
    if s != [] {
      WithoutNewlinesFirst(s[1..]);
      WithoutAppend(Kept(s[0], Newline), Without(s[1..], Newline), Whitespace);
    }
  }

  /** A piece of a string without three newlines in a row has none either. */
  lemma InfixNoTriple(c: string, a: nat, n: string)
    requires a + |n| <= |c| && n == c[a..a + |n|] && NoTripleNewline(c)
    ensures NoTripleNewline(n)
  {
    forall i | 0 <= i < |n|
      ensures n[i] == c[a + i]
    {
    }
  }

  /** `.replace(/\n{3,}/g, '\n\n').trim()`, the last step of `htmlToMd`. */
  function Tidy(s: string): (r: string)
    ensures r == [] || (!IsSpace(r[0]) && !IsSpace(r[|r| - 1]))
    ensures NoTripleNewline(r)
  {
    var c := CollapseNewlines(s);
    TrimNoTriple(c);
    Trim(c)
  }

  lemma TrimNoTriple(c: string)
    requires NoTripleNewline(c)
    ensures NoTripleNewline(Trim(c))
  {
    InfixNoTriple(c, LeadingRun(c, Whitespace), Trim(c));
  }

  /** `htmlToMd(html)` on the nodes the HTML stands for. */
  function HtmlToMd(ns: seq<Node>): (md: string)
    ensures md == [] || (!IsSpace(md[0]) && !IsSpace(md[|md| - 1]))
    ensures NoTripleNewline(md)
  {
    Tidy(ConvertAll(ns))
  }

  /** Tidying keeps every character that is not whitespace, in order, and gives nothing
      exactly when the text is blank once newline runs are collapsed. */
  lemma TidyKeeps(s: string)
    ensures Without(Tidy(s), Whitespace) == Without(s, Whitespace)
    ensures Tidy(s) == [] <==> IsBlank(CollapseNewlines(s))
  {
    var c := CollapseNewlines(s);
    TrimKeeps(c);
    CollapseNewlinesKeeps(s);
    WithoutNewlinesFirst(c);
    WithoutNewlinesFirst(s);
  }

  // ---------------------------------------------------------------------------------------
  // slugify
  // ---------------------------------------------------------------------------------------

  const SlugMax := 60
  const DefaultSlug := "page"

  /** `toLowerCase` on the ASCII letters. */
  function Lower(c: char): char
  {
    if 'A' <= c <= 'Z' then (c as int + 32) as char else c
  }

  function LowerAll(s: string): (r: string)
    ensures |r| == |s| && forall i :: 0 <= i < |s| ==> r[i] == Lower(s[i])
  {
    if s == [] then [] else [Lower(s[0])] + LowerAll(s[1..])
  }

  /** Where `StripDashes` starts keeping characters. */
  function DashFront(s: string): nat
  {
    if s != [] && s[0] == '-' then 1 else 0
  }

  /** `s.replace(/^-|-$/g, '')`: one `-` off the front and one off the back. */
  function StripDashes(s: string): (r: string)
    ensures DashFront(s) + |r| <= |s| <= DashFront(s) + |r| + 1
    ensures r == s[DashFront(s)..DashFront(s) + |r|]
    ensures DashFront(s) + |r| < |s| ==> s[|s| - 1] == '-'
    ensures r != [] && DashFront(s) + |r| == |s| ==> r[|r| - 1] != '-'
  {
    var t := s[DashFront(s)..];
    if t != [] && t[|t| - 1] == '-' then t[..|t| - 1] else t
  }

  /** `.slice(0, 60) || 'page'`. */
  function Shorten(s: string): (r: string)
  {
    var cut := if |s| <= SlugMax then s else s[..SlugMax];
    if cut != "" then cut else DefaultSlug
  }

  /** `slugify(text)`. */
  function Slugify(text: string): (slug: string)
  {
    Shorten(StripDashes(CollapseRuns(LowerAll(if text != "" then text else DefaultSlug), NonSlug, '-')))
  }

  /** Only lower-case letters, digits and dashes, never two dashes in a row. */
  predicate Dashed(s: string)
  {
    && (forall i :: 0 <= i < |s| ==> IsSlugChar(s[i]) || s[i] == '-')
    && (forall i :: 0 <= i < |s| - 1 ==> !(s[i] == '-' && s[i + 1] == '-'))
  }

  /** A dashed string that does not start with a dash. */
  predicate IsSlug(s: string)
  {
    Dashed(s) && (s != [] ==> s[0] != '-')
  }

  /** Replacing runs of other characters by `-` leaves a dashed string. */
  lemma CollapsedDashed(s: string)
    ensures Dashed(CollapseRuns(s, NonSlug, '-'))
  {
    var r := CollapseRuns(s, NonSlug, '-');
    forall i | 0 <= i < |r|
      ensures IsSlugChar(r[i]) || r[i] == '-'
    {
      assert In(r[i], NonSlug) ==> r[i] == '-';
    }
    forall i | 0 <= i < |r| - 1
      ensures !(r[i] == '-' && r[i + 1] == '-')
    {
      assert !(In(r[i], NonSlug) && In(r[i + 1], NonSlug));
    }
  }

  /** Every contiguous piece of a dashed string is dashed. */
  lemma InfixDashed(c: string, a: nat, n: string)
    requires a + |n| <= |c| && n == c[a..a + |n|] && Dashed(c)
    ensures Dashed(n)
  {
    forall i | 0 <= i < |n|
      ensures n[i] == c[a + i]
    {
    }
  }

  /** Stripping the dashes of a dashed string leaves a slug that ends in no dash. */
  lemma StripDashesSlug(c: string)
    requires Dashed(c)
    ensures var s := StripDashes(c); IsSlug(s) && (s != [] ==> s[|s| - 1] != '-')
  {
    var s := StripDashes(c);
    var a := DashFront(c);
    InfixDashed(c, a, s);
    if s != [] {
      assert s[0] == c[a];
      assert s[|s| - 1] == c[a + |s| - 1];
      if a == 1 {
        assert c[0] == '-';
      }
    }
  }

  /** Cutting a slug that ends in no dash at 60 characters, or replacing it by `page` when
      it is empty, gives a slug that ends in a dash only when it was cut. */
  lemma ShortenSlug(s: string)
    requires IsSlug(s) && (s != [] ==> s[|s| - 1] != '-')
    ensures var r := Shorten(s);
      && r != [] && |r| <= SlugMax && IsSlug(r)
      && (r[|r| - 1] == '-' ==> |r| == SlugMax < |s|)
  {
    if |s| > SlugMax {
      InfixDashed(s, 0, s[..SlugMax]);
    }
    assert IsSlug(DefaultSlug);
  }

  /** The slug is never empty, at most 60 characters long, made of `a`-`z`, `0`-`9` and
      `-`, never starts with `-` and never holds two `-` in a row; it ends in `-` only when
      it was cut at 60 characters. */
  lemma SlugShape(text: string)
    ensures var slug := Slugify(text);
      && slug != [] && |slug| <= SlugMax && IsSlug(slug)
      && (slug[|slug| - 1] == '-' ==> |slug| == SlugMax)
  {
    var low := LowerAll(if text != "" then text else DefaultSlug);
    CollapsedDashed(low);
    StripDashesSlug(CollapseRuns(low, NonSlug, '-'));
    ShortenSlug(StripDashes(CollapseRuns(low, NonSlug, '-')));
  }

  /** Stripping the dashes off the words joined by `-`, between at most one dash on each
      side, gives the joined words. */
  lemma StripAround(a: string, j: string, b: string)
    requires a == [] || a == "-"
    requires b == [] || b == "-"
    requires j == [] ==> b == []
    requires j != [] ==> j[0] != '-' && j[|j| - 1] != '-'
    ensures StripDashes(a + j + b) == j
  {
    var x := a + j + b;
    if a != [] {
      assert x[0] == '-' && x[1..] == j + b;
    } else if j != [] {
      assert x[0] == j[0] && x == j + b;
    }
  }

  /** The slug before it is cut: the words of the lower-cased text, its maximal runs of
      `a`-`z` and `0`-`9`, joined by single dashes. */
  lemma SlugWords(text: string)
    ensures var low := LowerAll(if text != "" then text else DefaultSlug);
      StripDashes(CollapseRuns(low, NonSlug, '-')) == Join(Words(low, NonSlug), "-")
  {
    var low := LowerAll(if text != "" then text else DefaultSlug);
    CollapseWords(low, NonSlug, '-');
    CollapseShape(low, NonSlug, '-');
    StripAround(if low != [] && In(low[0], NonSlug) then "-" else [],
      Join(Words(low, NonSlug), "-"),
      if Words(low, NonSlug) != [] && In(low[|low| - 1], NonSlug) then "-" else []);
  }

  /** The cut can leave a dash at the end: 59 letters, a space and another letter give 59
      letters and a dash. */
  lemma SlugCutAfterDash()
    ensures var text := seq(59, _ => 'a') + " b";
      Slugify(text) == seq(59, _ => 'a') + "-"
  {
    var run := seq(59, _ => 'a');
    var text := run + " b";
    var dashed := run + "-b";
    assert LowerAll(text) == text;
    SlugRunCollapse(run);
    assert StripDashes(dashed) == dashed by {
      assert DashFront(dashed) == 0 && dashed[|dashed| - 1] == 'b';
    }
    assert dashed[..SlugMax] == run + "-";
  }

  /** The space between a run of letters and a `b` becomes one `-`. */
  lemma SlugRunCollapse(run: string)
    requires forall i :: 0 <= i < |run| ==> !In(run[i], NonSlug)
    ensures CollapseRuns(run + " b", NonSlug, '-') == run + "-b"
  {
    var text := run + " b";
    CollapseOut(text, |run|, NonSlug, '-');
    assert text[..|run|] == run && text[|run|..] == " b";
    SpaceBCollapse();
  }

  /** The space in " b" is one run of the class and becomes `-`. */
  lemma SpaceBCollapse()
    ensures CollapseRuns(" b", NonSlug, '-') == "-b"
  {
    assert " b"[1..] == "b" && "b"[1..] == [];
    assert LeadingRun("b", NonSlug) == 0;
    assert LeadingRun(" b", NonSlug) == 1;
    assert CollapseRuns("b", NonSlug, '-') == "b";
  }

}
