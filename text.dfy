/** Character classes shared by the regular expressions and by `trim`. */
module Text {

  /** The code points of ECMAScript's WhiteSpace and LineTerminator
      productions: the set that the regular-expression class `\s` matches
      and that `String.prototype.trim` removes. */
  predicate IsWhitespace(c: char) {
    var n := c as int;
    || (0x09 <= n <= 0x0D)              // tab, line feed, vertical tab, form feed, carriage return
    || n == 0x20 || n == 0xA0           // space, no-break space
    || n == 0x1680
    || (0x2000 <= n <= 0x200A)
    || n == 0x2028 || n == 0x2029       // line and paragraph separators
    || n == 0x202F || n == 0x205F || n == 0x3000
    || n == 0xFEFF                      // byte order mark
  }

  /** The visible (non-whitespace) characters of `s`, in order. */
  function Visible(s: string): (v: string)
    ensures |v| <= |s|
    ensures forall k :: 0 <= k < |v| ==> !IsWhitespace(v[k])
  {
    if s == [] then []
    else if IsWhitespace(s[0]) then Visible(s[1..])
    else [s[0]] + Visible(s[1..])
  }

  /** Visible distributes over concatenation. */
  lemma {:induction false} VisibleConcat(a: string, b: string)
    ensures Visible(a + b) == Visible(a) + Visible(b)
  {
    if a == [] {
      assert a + b == b;
    } else {
      assert (a + b)[0] == a[0];
      assert (a + b)[1..] == a[1..] + b;
      VisibleConcat(a[1..], b);
    }
  }

  /** A string has no visible characters exactly when it is all whitespace. */
  lemma {:induction false} VisibleEmpty(s: string)
    ensures Visible(s) == [] <==> forall k :: 0 <= k < |s| ==> IsWhitespace(s[k])
  {
    if s != [] {
      VisibleEmpty(s[1..]);
      assert forall k :: 1 <= k < |s| ==> s[k] == s[1..][k - 1];
    }
  }
}
