/** Turning the editor's rich-text markup into plain text: the tag removal
    of the email service and the tag-to-space, whitespace-collapsing and
    trimming chain of the PDF generator. */
module Markup {
  import opened Text

  // ---------------------------------------------------------------------
  // The tag pattern /<[^>]*>/g

  /** The index of the first '>' in `s`. */
  function FirstClose(s: string): (k: nat)
    requires '>' in s
    ensures k < |s| && s[k] == '>'
    ensures forall i :: 0 <= i < k ==> s[i] != '>'
  {
    if s[0] == '>' then 0
    else
      assert '>' in s[1..] by {
        var i :| 0 <= i < |s| && s[i] == '>';
        assert s[1..][i - 1] == '>';
      }
      FirstClose(s[1..]) + 1
  }

  /** `s.replace(/<[^>]*>/g, sep)`. Scanning from the left, a '<' that has
      a '>' somewhere after it starts a tag running up to and including the
      first such '>', and the whole tag is replaced by `sep`; scanning then
      resumes after the tag. Every other character, including a '<' with no
      '>' after it, is kept. A tag is at least two characters long, so a
      separator of at most two characters never lengthens the text. */
  function ReplaceTags(s: string, sep: string): (r: string)
    ensures |sep| <= 2 ==> |r| <= |s|
    decreases |s|
  {
    if s == [] then []
    else if s[0] == '<' && '>' in s then sep + ReplaceTags(s[FirstClose(s) + 1..], sep)
    else [s[0]] + ReplaceTags(s[1..], sep)
  }

  /** No '<' occurs anywhere before a '>': the pattern has nothing to match. */
  predicate TagFree(t: string) {
    forall i, j :: 0 <= i < j < |t| && t[i] == '<' ==> t[j] != '>'
  }

  /** Joining two tag-free texts is tag-free unless a '<' of the first meets a '>' of the second. */
  lemma TagFreeConcat(a: string, b: string)
    requires TagFree(a) && TagFree(b)
    requires '<' !in a || '>' !in b
    ensures TagFree(a + b)
  {
    var t := a + b;
    forall i, j | 0 <= i < j < |t| && t[i] == '<'
      ensures t[j] != '>'
    {
      if j < |a| {
        assert t[i] == a[i] && t[j] == a[j];
      } else if i >= |a| {
        assert t[i] == b[i - |a|] && t[j] == b[j - |a|];
      } else {
        assert t[i] == a[i] && t[j] == b[j - |a|];
      }
    }
  }

  /** Every piece of a tag-free text is tag-free. */
  lemma TagFreeSlice(t: string, lo: int, hi: int)
    requires TagFree(t) && 0 <= lo <= hi <= |t|
    ensures TagFree(t[lo..hi])
  {
    var u := t[lo..hi];
    forall i, j | 0 <= i < j < |u| && u[i] == '<'
      ensures u[j] != '>'
    {
      assert u[i] == t[lo + i] && u[j] == t[lo + j];
    }
  }

  /** Text the pattern cannot match comes back unchanged. */
  lemma {:induction false} TagFreeUnchanged(t: string, sep: string)
    requires TagFree(t)
    ensures ReplaceTags(t, sep) == t
  {
    if t != [] {
      TagFreeSlice(t, 1, |t|);
      TagFreeUnchanged(t[1..], sep);
      if t[0] == '<' {
        assert forall j :: 0 < j < |t| ==> t[j] != '>';
        assert '>' !in t;
      }
      assert ReplaceTags(t, sep) == [t[0]] + ReplaceTags(t[1..], sep);
      assert [t[0]] + t[1..] == t;
    }
  }

  /** The replacement leaves no '<' before a '>', provided the separator
      itself holds neither. */
  lemma {:induction false} ReplaceTagsTagFree(s: string, sep: string)
    requires '<' !in sep && '>' !in sep
    ensures TagFree(ReplaceTags(s, sep))
  {
    if s != [] {
      if s[0] == '<' && '>' in s {
        var k := FirstClose(s);
        ReplaceTagsTagFree(s[k + 1..], sep);
        assert TagFree(sep);
        TagFreeConcat(sep, ReplaceTags(s[k + 1..], sep));
      } else if s[0] == '<' {
        assert TagFree(s);
        TagFreeUnchanged(s, sep);
      } else {
        ReplaceTagsTagFree(s[1..], sep);
        assert TagFree([s[0]]);
        TagFreeConcat([s[0]], ReplaceTags(s[1..], sep));
      }
    }
  }

  /** Text before the first '<' is kept as it is. */
  lemma {:induction false} TextKept(text: string, rest: string, sep: string)
    requires '<' !in text
    ensures ReplaceTags(text + rest, sep) == text + ReplaceTags(rest, sep)
  {
    if text != [] {
      assert (text + rest)[0] == text[0];
      assert (text + rest)[1..] == text[1..] + rest;
      TextKept(text[1..], rest, sep);
    } else {
      assert text + rest == rest;
    }
  }

  /** A '<' followed by a '>' with no '>' in between is one tag: it is
      replaced as a whole, however many '<' it holds. */
  lemma TagReplaced(inner: string, rest: string, sep: string)
    requires '>' !in inner
    ensures ReplaceTags("<" + inner + ">" + rest, sep) == sep + ReplaceTags(rest, sep)
  {
    var s := "<" + inner + ">" + rest;
    assert s[|inner| + 1] == '>';
    var k := FirstClose(s);
    assert forall i :: 0 < i <= |inner| ==> s[i] == inner[i - 1];
    assert k == |inner| + 1;
    assert s[k + 1..] == rest;
  }

  /** Replacing tags with whitespace instead of nothing changes only the
      whitespace of the result. */
  lemma {:induction false} SeparatorOnlyAddsWhitespace(s: string, sep: string)
    requires forall k :: 0 <= k < |sep| ==> IsWhitespace(sep[k])
    ensures Visible(ReplaceTags(s, sep)) == Visible(ReplaceTags(s, ""))
  {
    if s != [] {
      if s[0] == '<' && '>' in s {
        var rest := s[FirstClose(s) + 1..];
        SeparatorOnlyAddsWhitespace(rest, sep);
        VisibleConcat(sep, ReplaceTags(rest, sep));
        VisibleEmpty(sep);
        assert "" + ReplaceTags(rest, "") == ReplaceTags(rest, "");
      } else {
        SeparatorOnlyAddsWhitespace(s[1..], sep);
        VisibleConcat([s[0]], ReplaceTags(s[1..], sep));
        VisibleConcat([s[0]], ReplaceTags(s[1..], ""));
      }
    }
  }

  // ---------------------------------------------------------------------
  // The email service's plain-text body

  /** `content.replace(/<[^>]*>/g, '')`: every tag removed. */
  function StripTags(content: string): (r: string)
    ensures TagFree(r)
    ensures |r| <= |content|
    ensures TagFree(content) ==> r == content
  {
    ReplaceTagsTagFree(content, "");
    if TagFree(content) then TagFreeUnchanged(content, ""); ReplaceTags(content, "")
    else ReplaceTags(content, "")
  }

  /** Stripping twice is stripping once. */
  lemma StripIdempotent(s: string)
    ensures StripTags(StripTags(s)) == StripTags(s)
  {
  }

  /** Text with no '<' is left alone; so is text whose '<' have no '>' after them. */
  lemma StripWithoutTags(s: string)
    ensures '<' !in s ==> StripTags(s) == s
    ensures '>' !in s ==> StripTags(s) == s
  {
  }

  // The concatenations in the paragraph lemmas below are nested to the
  // right on purpose: each lemma then names exactly the suffix the next
  // step of the scan works on.

  /** A paragraph of plain text between an opening tag `<on>` and a
      closing tag `<cn>`: both tags become `sep`. */
  lemma Paragraph(on: string, cn: string, y: string, rest: string, sep: string)
    requires '>' !in on && '>' !in cn && '<' !in y
    ensures ReplaceTags(("<" + on + ">") + (y + (("<" + cn + ">") + rest)), sep)
         == sep + (y + (sep + ReplaceTags(rest, sep)))
  {
    TagReplaced(cn, rest, sep);
    TextKept(y, ("<" + cn + ">") + rest, sep);
    TagReplaced(on, y + (("<" + cn + ">") + rest), sep);
  }

  /** The tags `<inners[0]>`, `<inners[1]>`, ... written one after another. */
  function TagsOf(inners: seq<string>): string {
    if inners == [] then [] else "<" + inners[0] + ">" + TagsOf(inners[1..])
  }

  /** Markup made only of tags strips to nothing. */
  lemma {:induction false} StripOnlyTags(inners: seq<string>)
    requires forall i :: 0 <= i < |inners| ==> '>' !in inners[i]
    ensures StripTags(TagsOf(inners)) == ""
  {
    if inners != [] {
      StripOnlyTags(inners[1..]);
      TagReplaced(inners[0], TagsOf(inners[1..]), "");
    }
  }

  /** Two paragraphs of plain text: each of the four tags becomes `sep`. */
  lemma TwoParagraphs(on: string, cn: string, x: string, y: string, sep: string)
    requires '>' !in on && '>' !in cn && '<' !in x && '<' !in y
    ensures var o, c := "<" + on + ">", "<" + cn + ">";
      ReplaceTags(o + (x + (c + (o + (y + (c + ""))))), sep) == sep + (x + (sep + (sep + (y + (sep + [])))))
  {
    var o, c := "<" + on + ">", "<" + cn + ">";
    Paragraph(on, cn, y, "", sep);
    assert ReplaceTags("", sep) == [];
    Paragraph(on, cn, x, o + (y + (c + "")), sep);
  }

  /** Text on either side of a tag is joined with no separator. */
  lemma StripJoinsText()
    ensures StripTags("<p>a</p><p>b</p>") == "ab"
  {
    var o, c := "<" + "p" + ">", "<" + "/p" + ">";
    assert o + ("a" + (c + (o + ("b" + (c + ""))))) == "<p>a</p><p>b</p>";
    TwoParagraphs("p", "/p", "a", "b", "");
  }

  // ---------------------------------------------------------------------
  // Whitespace: /\s+/g and trim

  /** `s` without its leading whitespace. */
  function TrimStart(s: string): (r: string)
    ensures |r| <= |s| && r == s[|s| - |r|..]
    ensures r == [] || !IsWhitespace(r[0])
    ensures forall k :: 0 <= k < |s| - |r| ==> IsWhitespace(s[k])
  {
    if s != [] && IsWhitespace(s[0]) then TrimStart(s[1..]) else s
  }

  /** `s` without its trailing whitespace. */
  function TrimEnd(s: string): (r: string)
    ensures |r| <= |s| && r == s[..|r|]
    ensures r == [] || !IsWhitespace(r[|r| - 1])
    ensures forall k :: |r| <= k < |s| ==> IsWhitespace(s[k])
  {
    if s != [] && IsWhitespace(s[|s| - 1]) then TrimEnd(s[..|s| - 1]) else s
  }

  /** Neither begins nor ends with whitespace. */
  predicate Trimmed(t: string) {
    t == [] || (!IsWhitespace(t[0]) && !IsWhitespace(t[|t| - 1]))
  }

  /** Every whitespace character is a plain space, and no two are adjacent. */
  predicate SingleSpaced(t: string) {
    && (forall k :: 0 <= k < |t| && IsWhitespace(t[k]) ==> t[k] == ' ')
    && (forall k :: 0 <= k < |t| - 1 && IsWhitespace(t[k]) ==> !IsWhitespace(t[k + 1]))
  }

  /** Every piece of a single-spaced text is single-spaced. */
  lemma SingleSpacedSlice(t: string, lo: int, hi: int)
    requires SingleSpaced(t) && 0 <= lo <= hi <= |t|
    ensures SingleSpaced(t[lo..hi])
  {
    var u := t[lo..hi];
    forall k | 0 <= k < |u| - 1 && IsWhitespace(u[k])
      ensures !IsWhitespace(u[k + 1])
    {
      assert u[k] == t[lo + k] && u[k + 1] == t[lo + k + 1];
    }
  }

  /** `s.trim()`. */
  function Trim(s: string): (r: string)
    ensures Trimmed(r)
    ensures |r| <= |s|
  {
    TrimEnd(TrimStart(s))
  }

  /** Trimming cuts a piece out of the text. */
  lemma TrimIsSlice(s: string) returns (lo: int)
    ensures 0 <= lo <= lo + |Trim(s)| <= |s|
    ensures Trim(s) == s[lo..lo + |Trim(s)|]
  {
    var t := TrimStart(s);
    lo := |s| - |t|;
    var r := TrimEnd(t);
    assert t == s[lo..];
    assert r == t[..|r|];
    assert r == s[lo..lo + |r|];
  }

  /** So trimming keeps the guarantees that hold of every piece of the text. */
  lemma TrimKeeps(s: string)
    ensures TagFree(s) ==> TagFree(Trim(s))
    ensures SingleSpaced(s) ==> SingleSpaced(Trim(s))
  {
    var lo := TrimIsSlice(s);
    if TagFree(s) {
      TrimKeepsTagFree(s, lo);
    }
    if SingleSpaced(s) {
      TrimKeepsSingleSpaced(s, lo);
    }
  }

  /** The tag-free half of TrimKeeps. */
  lemma TrimKeepsTagFree(s: string, lo: int)
    requires TagFree(s) && 0 <= lo <= lo + |Trim(s)| <= |s| && Trim(s) == s[lo..lo + |Trim(s)|]
    ensures TagFree(Trim(s))
  {
    TagFreeSlice(s, lo, lo + |Trim(s)|);
  }

  /** The single-spacing half of TrimKeeps. */
  lemma TrimKeepsSingleSpaced(s: string, lo: int)
    requires SingleSpaced(s) && 0 <= lo <= lo + |Trim(s)| <= |s| && Trim(s) == s[lo..lo + |Trim(s)|]
    ensures SingleSpaced(Trim(s))
  {
    SingleSpacedSlice(s, lo, lo + |Trim(s)|);
  }

  /** Trimming keeps the visible characters. */
  lemma TrimVisible(s: string)
    ensures Visible(Trim(s)) == Visible(s)
  {
    TrimStartVisible(s);
    TrimEndVisible(TrimStart(s));
  }

  /** `s.replace(/\s+/g, ' ')`: every maximal run of whitespace becomes a
      single space. */
  function CollapseWhitespace(s: string): (r: string)
    ensures SingleSpaced(r)
    ensures |r| <= |s|
    ensures s != [] ==> r != [] && r[0] == (if IsWhitespace(s[0]) then ' ' else s[0])
    decreases |s|
  {
    if s == [] then []
    else if IsWhitespace(s[0]) then [' '] + CollapseWhitespace(TrimStart(s))
    else [s[0]] + CollapseWhitespace(s[1..])
  }

  /** Collapsing introduces no character but the space. */
  lemma {:induction false} CollapseChars(s: string)
    ensures forall c :: c in CollapseWhitespace(s) ==> c == ' ' || c in s
    decreases |s|
  {
    if s != [] {
      if IsWhitespace(s[0]) {
        var rest := TrimStart(s);
        CollapseChars(rest);
        assert forall c :: c in rest ==> c in s;
      } else {
        CollapseChars(s[1..]);
        assert forall c :: c in s[1..] ==> c in s;
      }
    }
  }

  /** Text already in single-spaced form is its own collapse. */
  lemma {:induction false} CollapseFixed(t: string)
    requires SingleSpaced(t)
    ensures CollapseWhitespace(t) == t
  {
    if t != [] {
      SingleSpacedSlice(t, 1, |t|);
      CollapseFixed(t[1..]);
      if IsWhitespace(t[0]) {
        assert t[0] == ' ';
        assert t[1..] == [] || !IsWhitespace(t[1..][0]);
        assert TrimStart(t[1..]) == t[1..];
        assert TrimStart(t) == t[1..];
        assert CollapseWhitespace(t) == [' '] + CollapseWhitespace(t[1..]);
      } else {
        assert CollapseWhitespace(t) == [t[0]] + CollapseWhitespace(t[1..]);
      }
      assert [t[0]] + t[1..] == t;
    }
  }

  /** Collapsing keeps the guarantee that no '<' precedes a '>'. */
  lemma {:induction false} CollapseTagFree(s: string)
    requires TagFree(s)
    ensures TagFree(CollapseWhitespace(s))
    decreases |s|
  {
    if s != [] {
      if IsWhitespace(s[0]) {
        var rest := TrimStart(s);
        TagFreeSlice(s, |s| - |rest|, |s|);
        CollapseTagFree(rest);
        TagFreeConcat([' '], CollapseWhitespace(rest));
      } else {
        TagFreeSlice(s, 1, |s|);
        CollapseTagFree(s[1..]);
        CollapseChars(s[1..]);
        if s[0] == '<' {
          assert forall c :: c in s[1..] ==> c != '>' by {
            assert forall j :: 1 <= j < |s| ==> s[j] != '>';
          }
        }
        TagFreeConcat([s[0]], CollapseWhitespace(s[1..]));
      }
    }
  }

  /** Dropping whitespace at the front keeps the visible characters. */
  lemma TrimStartVisible(s: string)
    ensures Visible(TrimStart(s)) == Visible(s)
  {
    var r := TrimStart(s);
    var front := s[..|s| - |r|];
    assert s == front + r;
    VisibleConcat(front, r);
    VisibleEmpty(front);
  }

  /** Dropping whitespace at the back keeps the visible characters. */
  lemma TrimEndVisible(s: string)
    ensures Visible(TrimEnd(s)) == Visible(s)
  {
    var r := TrimEnd(s);
    var back := s[|r|..];
    assert s == r + back;
    VisibleConcat(r, back);
    VisibleEmpty(back);
    assert Visible(r) + [] == Visible(r);
  }

  /** Collapsing whitespace keeps the visible characters. */
  lemma {:induction false} CollapseVisible(s: string)
    ensures Visible(CollapseWhitespace(s)) == Visible(s)
    decreases |s|
  {
    if s != [] {
      if IsWhitespace(s[0]) {
        var rest := TrimStart(s);
        CollapseVisible(rest);
        TrimStartVisible(s);
        VisibleConcat([' '], CollapseWhitespace(rest));
      } else {
        CollapseVisible(s[1..]);
        VisibleConcat([s[0]], CollapseWhitespace(s[1..]));
      }
    }
  }

  // ---------------------------------------------------------------------
  // The PDF generator's plain text

  /** `content.replace(/<[^>]*>/g, ' ').replace(/\s+/g, ' ').trim()`. */
  function NormalizeForPdf(content: string): (r: string)
    ensures Trimmed(r)
    ensures SingleSpaced(r)
    ensures TagFree(r)
    ensures Visible(r) == Visible(StripTags(content))
  {
    var spaced := ReplaceTags(content, " ");
    NormalizeKeepsTagFree(spaced);
    NormalizeKeepsVisible(content);
    TrimKeeps(CollapseWhitespace(spaced));
    Trim(CollapseWhitespace(spaced))
  }

  /** Collapsing and trimming keep the guarantee that no '<' precedes a '>'. */
  lemma NormalizeKeepsTagFree(spaced: string)
    ensures TagFree(spaced) ==> TagFree(Trim(CollapseWhitespace(spaced)))
  {
    if TagFree(spaced) {
      CollapseTagFree(spaced);
      TrimKeeps(CollapseWhitespace(spaced));
    }
  }

  /** The PDF text has the same visible characters, in the same order, as
      the plain-text body of the email. */
  lemma NormalizeKeepsVisible(content: string)
    ensures TagFree(ReplaceTags(content, " "))
    ensures Visible(Trim(CollapseWhitespace(ReplaceTags(content, " ")))) == Visible(StripTags(content))
  {
    var spaced := ReplaceTags(content, " ");
    ReplaceTagsTagFree(content, " ");
    assert IsWhitespace(' ');
    SeparatorOnlyAddsWhitespace(content, " ");
    CollapseVisible(spaced);
    TrimVisible(CollapseWhitespace(spaced));
  }

  /** Normalising twice is normalising once. */
  lemma NormalizeIdempotent(s: string)
    ensures NormalizeForPdf(NormalizeForPdf(s)) == NormalizeForPdf(s)
  {
    var t := NormalizeForPdf(s);
    TagFreeUnchanged(t, " ");
    CollapseFixed(t);
  }

  /** Content whose text, once tags are removed, is only whitespace (markup
      made of tags and whitespace) normalises to the empty string. */
  lemma OnlyMarkupIsEmpty(s: string)
    requires forall k :: 0 <= k < |StripTags(s)| ==> IsWhitespace(StripTags(s)[k])
    ensures NormalizeForPdf(s) == ""
  {
    var r := NormalizeForPdf(s);
    VisibleEmpty(StripTags(s));
    VisibleEmpty(r);
  }

  // ---------------------------------------------------------------------
  // Worked cases: words and tags

  /** No character of `w` is whitespace. */
  predicate Word(w: string) {
    |w| > 0 && forall k :: 0 <= k < |w| ==> !IsWhitespace(w[k])
  }

  /** Leading whitespace followed by visible text is dropped exactly. */
  lemma TrimStartRun(run: string, rest: string)
    requires forall k :: 0 <= k < |run| ==> IsWhitespace(run[k])
    requires rest == [] || !IsWhitespace(rest[0])
    ensures TrimStart(run + rest) == rest
  {
    var s := run + rest;
    var r := TrimStart(s);
    assert forall k :: 0 <= k < |run| ==> s[k] == run[k];
    assert rest != [] ==> s[|run|] == rest[0];
    assert |r| == |rest|;
  }

  /** A visible character passes through the collapse unchanged. */
  lemma CollapseCons(c: char, t: string)
    requires !IsWhitespace(c)
    ensures CollapseWhitespace([c] + t) == [c] + CollapseWhitespace(t)
  {
    assert ([c] + t)[1..] == t;
  }

  /** So does a word. */
  lemma {:induction false} CollapseWord(w: string, rest: string)
    requires forall k :: 0 <= k < |w| ==> !IsWhitespace(w[k])
    ensures CollapseWhitespace(w + rest) == w + CollapseWhitespace(rest)
  {
    if w == [] {
      assert w + rest == rest;
    } else {
      var t := w[1..] + rest;
      assert w + rest == [w[0]] + t;
      CollapseCons(w[0], t);
      CollapseWord(w[1..], rest);
      assert [w[0]] + (w[1..] + CollapseWhitespace(rest)) == w + CollapseWhitespace(rest);
    }
  }

  /** A run of whitespace before a visible character collapses to one space. */
  lemma CollapseRun(run: string, rest: string)
    requires |run| > 0 && forall k :: 0 <= k < |run| ==> IsWhitespace(run[k])
    requires rest == [] || !IsWhitespace(rest[0])
    ensures CollapseWhitespace(run + rest) == [' '] + CollapseWhitespace(rest)
  {
    assert (run + rest)[0] == run[0];
    TrimStartRun(run, rest);
  }

  /** One space on each side of a text that starts and ends visibly is trimmed away. */
  lemma TrimSpaces(m: string)
    requires |m| > 0 && !IsWhitespace(m[0]) && !IsWhitespace(m[|m| - 1])
    ensures Trim(" " + m + " ") == m
  {
    assert IsWhitespace(' ');
    TrimStartRun(" ", m + " ");
    assert " " + m + " " == " " + (m + " ");
    var t := m + " ";
    assert TrimEnd(t) == TrimEnd(t[..|t| - 1]);
    assert t[..|t| - 1] == m;
  }

  /** Two words around one space are already in normal form. */
  lemma CollapseTwoWords(x: string, y: string)
    requires Word(x) && Word(y)
    ensures CollapseWhitespace(x + (" " + y)) == x + " " + y
  {
    assert IsWhitespace(' ') && !IsWhitespace(y[0]);
    CollapseWord(y, []);
    assert y + [] == y;
    CollapseRun(" ", y);
    assert CollapseWhitespace(" " + y) == " " + y;
    CollapseWord(x, " " + y);
    assert x + (" " + y) == x + " " + y;
  }

  /** A tag between two words becomes the space between them. */
  lemma WordsAroundTag(x: string, inner: string, y: string)
    requires Word(x) && Word(y) && '<' !in x && '<' !in y && '>' !in inner
    ensures NormalizeForPdf(x + ("<" + inner + ">" + y)) == x + " " + y
  {
    TagFreeUnchanged(y, " ");
    TagReplaced(inner, y, " ");
    TextKept(x, "<" + inner + ">" + y, " ");
    CollapseTwoWords(x, y);
    assert Trimmed(x + " " + y);
  }

  /** A word and a trailing space are in normal form. */
  lemma CollapseWordSpace(y: string)
    requires Word(y)
    ensures CollapseWhitespace(y + " ") == y + " "
  {
    assert IsWhitespace(' ');
    CollapseRun(" ", []);
    assert " " + [] == " ";
    CollapseWord(y, " ");
  }

  /** Two spaces before a word collapse to one. */
  lemma CollapseSpacesWord(y: string)
    requires Word(y)
    ensures CollapseWhitespace("  " + (y + " ")) == " " + (y + " ")
  {
    assert IsWhitespace(' ');
    CollapseWordSpace(y);
    CollapseRun("  ", y + " ");
  }

  /** The spaced-out text of two one-word paragraphs collapses to the words
      with a space on each side and one between. */
  lemma CollapseParagraphWords(x: string, y: string)
    requires Word(x) && Word(y)
    ensures CollapseWhitespace(" " + (x + ("  " + (y + " ")))) == " " + (x + (" " + (y + " ")))
  {
    assert IsWhitespace(' ');
    var c := "  " + (y + " ");
    CollapseSpacesWord(y);
    CollapseWord(x, c);
    assert (x + c)[0] == x[0];
    CollapseRun(" ", x + c);
  }

  /** Two one-word paragraphs become the two words separated by one space. */
  lemma WordParagraphs(on: string, cn: string, x: string, y: string)
    requires '>' !in on && '>' !in cn
    requires Word(x) && Word(y) && '<' !in x && '<' !in y
    ensures var o, c := "<" + on + ">", "<" + cn + ">";
      NormalizeForPdf(o + (x + (c + (o + (y + (c + "")))))) == x + " " + y
  {
    TwoParagraphs(on, cn, x, y, " ");
    assert " " + (x + (" " + (" " + (y + (" " + []))))) == " " + (x + ("  " + (y + " ")));
    assert " " + (x + (" " + (y + " "))) == " " + (x + " " + y) + " ";
    CollapseParagraphWords(x, y);
    TrimSpaces(x + " " + y);
  }

  /** "a<br>b" becomes "a b". */
  lemma NormalizeLineBreak()
    ensures NormalizeForPdf("a<br>b") == "a b"
  {
    assert "a" + ("<" + "br" + ">" + "b") == "a<br>b";
    assert "a" + " " + "b" == "a b";
    assert !IsWhitespace('a') && !IsWhitespace('b');
    WordsAroundTag("a", "br", "b");
  }

  /** "<p>a</p><p>b</p>" becomes "a b". */
  lemma NormalizeParagraphs()
    ensures NormalizeForPdf("<p>a</p><p>b</p>") == "a b"
  {
    var o, c := "<" + "p" + ">", "<" + "/p" + ">";
    assert o + ("a" + (c + (o + ("b" + (c + ""))))) == "<p>a</p><p>b</p>";
    assert "a" + " " + "b" == "a b";
    assert !IsWhitespace('a') && !IsWhitespace('b');
    WordParagraphs("p", "/p", "a", "b");
  }
}
