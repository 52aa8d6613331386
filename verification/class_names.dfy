/**
  The viewer's helpers on an element's `className`, a string of class names
  separated by white space: `addClass` appends a name, and `removeClass`
  deletes every match of the global regular expression `(^|\s+)cls`.

  The removal is modelled as the left-to-right scan the regular expression
  engine performs for a class name `cls` that is a plain token (non-empty, no
  white space, no regular-expression syntax characters): at the start of the
  string a match is `cls` itself; at a white-space character it is the whole
  white-space run followed by `cls`; after a match the scan resumes where the
  match ended, where `^` no longer applies.
*/
module ClassNames {

  /** The characters `\s` matches in ECMAScript: WhiteSpace and LineTerminator. */
  predicate IsWhitespace(c: char) {
    || c == '\t' || c == '\n' || c == '\U{B}' || c == '\U{C}' || c == '\r' || c == ' '
    || c == '\U{A0}' || c == '\U{1680}' || ('\U{2000}' <= c <= '\U{200A}')
    || c == '\U{2028}' || c == '\U{2029}' || c == '\U{202F}' || c == '\U{205F}'
    || c == '\U{3000}' || c == '\U{FEFF}'
  }

  /** Characters with a meaning of their own in a regular expression. */
  const RegexSyntax: string := "\\^$.|?*+()[]{}"

  /** A class name that, spliced into the pattern, matches only itself. */
  predicate IsPlainToken(cls: string) {
    && |cls| > 0
    && forall i :: 0 <= i < |cls| ==> !IsWhitespace(cls[i]) && cls[i] !in RegexSyntax
  }

  /** `addClass`: an empty class string becomes `cls`; any other keeps its
      text and gains one space and `cls` at the end. */
  function AddClass(className: string, cls: string): (r: string)
    ensures |cls| <= |r| && r[|r| - |cls|..] == cls
    ensures className == "" ==> r == cls
    ensures className != "" ==> |r| == |className| + 1 + |cls|
    ensures className != "" ==> r[..|className|] == className && r[|className|] == ' '
  {
    if className != "" then className + " " + cls else cls
  }

  /** Length of the white-space run at the start of `s`. */
  function LeadingWhitespace(s: string): (k: nat)
    ensures k <= |s|
    ensures forall i :: 0 <= i < k ==> IsWhitespace(s[i])
    ensures k < |s| ==> !IsWhitespace(s[k])
  {
    if |s| == 0 || !IsWhitespace(s[0]) then 0 else 1 + LeadingWhitespace(s[1..])
  }

  /** The global replacement of `(^|\s+)cls` by the empty string, scanning `s`;
      `atStart` says whether `^` can match at the front of `s`. */
  function RemoveFrom(s: string, cls: string, atStart: bool): (r: string)
    requires IsPlainToken(cls)
    ensures |r| <= |s|
    decreases |s|
  {
    if |s| == 0 then []
    else if atStart && cls <= s then RemoveFrom(s[|cls|..], cls, false)
    else if IsWhitespace(s[0]) && cls <= s[LeadingWhitespace(s)..] then
      RemoveFrom(s[LeadingWhitespace(s) + |cls|..], cls, false)
    else [s[0]] + RemoveFrom(s[1..], cls, false)
  }

  /** `removeClass`: the class string loses something exactly when some class
      name in it begins with `cls`, and is otherwise returned unchanged. */
  function RemoveClass(className: string, cls: string): (r: string)
    requires IsPlainToken(cls)
    ensures |r| <= |className|
    ensures r == className <==> !HasClassPrefix(className, cls)
    ensures HasClassPrefix(className, cls) ==> |r| < |className|
  {
    var r := RemoveFrom(className, cls, true);
    if HasClassPrefix(className, cls) then
      RemoveFromShrinks(className, cls, true);
      r
    else
      RemoveFromUnchanged(className, cls, true);
      r
  }

  /** `cls` occurs in `s` at a place the pattern can match: at the front when
      `atStart`, or right after a white-space character. */
  predicate OccursFrom(s: string, cls: string, atStart: bool) {
    || (atStart && cls <= s)
    || exists i :: 0 <= i < |s| && IsWhitespace(s[i]) && cls <= s[i + 1..]
  }

  /** Some class name in `className` begins with `cls`. */
  predicate HasClassPrefix(className: string, cls: string) {
    OccursFrom(className, cls, true)
  }

  /** A class string that `cls` can be appended to and later removed from:
      no class name in it begins with `cls` and it does not end in white space. */
  predicate CleanBase(className: string, cls: string) {
    && !HasClassPrefix(className, cls)
    && (className == "" || !IsWhitespace(className[|className| - 1]))
  }

  // ----------------------------------------------------------------------

  /** No character of a plain token is white space. */
  lemma TokenCharNotWhitespace(cls: string, k: nat)
    ensures IsPlainToken(cls) && k < |cls| ==> !IsWhitespace(cls[k])
  {
  }

  /** A prefix agrees with the sequence on its positions. */
  lemma PrefixCharAt(p: string, s: string, k: nat)
    ensures p <= s && k < |p| ==> k < |s| && p[k] == s[k]
  {
  }

  /** An occurrence in the tail of `s` is an occurrence in `s`. */
  lemma OccursInTail(s: string, cls: string, atStart: bool)
    requires |s| > 0
    ensures OccursFrom(s[1..], cls, false) ==> OccursFrom(s, cls, atStart)
  {
    if OccursFrom(s[1..], cls, false) {
      var i :| 0 <= i < |s[1..]| && IsWhitespace(s[1..][i]) && cls <= s[1..][i + 1..];
      assert s[1..][i + 1..] == s[i + 2..];
      assert IsWhitespace(s[i + 1]) && cls <= s[(i + 1) + 1..];
    }
  }

  /** A plain token that is a prefix of `u + " " + v` is a prefix of `u`:
      it cannot reach across the space. */
  lemma PrefixStopsAtSpace(cls: string, u: string, v: string)
    requires IsPlainToken(cls)
    ensures cls <= u + " " + v ==> cls <= u
  {
    if cls <= u + " " + v {
      TokenCharNotWhitespace(cls, |u|);
      PrefixCharAt(cls, u + " " + v, |u|);
      assert (u + " " + v)[|u|] == ' ';
      assert |cls| <= |u|;
      assert cls == (u + " " + v)[..|cls|] == u[..|cls|];
    }
  }

  /** Appending text after a string that ends in a non-white-space character
      does not lengthen its leading white-space run. */
  lemma {:induction false} LeadingWhitespaceAppend(t: string, x: string)
    requires |t| > 0 && !IsWhitespace(t[|t| - 1])
    ensures LeadingWhitespace(t + x) == LeadingWhitespace(t) < |t|
  {
    if IsWhitespace(t[0]) {
      assert (t + x)[1..] == t[1..] + x;
      LeadingWhitespaceAppend(t[1..], x);
    }
  }

  /** Without an occurrence the scan copies its input. */
  lemma {:induction false} RemoveFromUnchanged(s: string, cls: string, atStart: bool)
    requires IsPlainToken(cls)
    requires !OccursFrom(s, cls, atStart)
    ensures RemoveFrom(s, cls, atStart) == s
    decreases |s|
  {
    if |s| > 0 {
      var j := LeadingWhitespace(s);
      if IsWhitespace(s[0]) {
        assert IsWhitespace(s[j - 1]);
        assert !(cls <= s[(j - 1) + 1..]);
      }
      OccursInTail(s, cls, atStart);
      RemoveFromUnchanged(s[1..], cls, false);
      assert s == [s[0]] + s[1..];
    }
  }

  /** With an occurrence the scan deletes something. */
  lemma {:induction false} RemoveFromShrinks(s: string, cls: string, atStart: bool)
    requires IsPlainToken(cls)
    requires OccursFrom(s, cls, atStart)
    ensures |RemoveFrom(s, cls, atStart)| < |s|
    decreases |s|
  {
    var j := LeadingWhitespace(s);
    if atStart && cls <= s {
    } else if IsWhitespace(s[0]) && cls <= s[j..] {
    } else {
      var i :| 0 <= i < |s| && IsWhitespace(s[i]) && cls <= s[i + 1..];
      TokenCharNotWhitespace(cls, 0);
      assert s[i + 1] == cls[0];
      assert i != 0;
      assert IsWhitespace(s[1..][i - 1]) && cls <= s[1..][(i - 1) + 1..];
      RemoveFromShrinks(s[1..], cls, false);
    }
  }

  /** After `addClass` some class name begins with `cls`. */
  lemma AddClassHasClass(className: string, cls: string)
    requires IsPlainToken(cls)
    ensures HasClassPrefix(AddClass(className, cls), cls)
  {
    var r := AddClass(className, cls);
    if className != "" {
      assert r[|className| + 1..] == cls;
      assert IsWhitespace(r[|className|]) && cls <= r[|className| + 1..];
    }
  }

  /** Over a clean non-empty string followed by " " and `cls`, the scan
      matches nothing at the first character and copies it. */
  lemma AppendedStep(t: string, cls: string, atStart: bool)
    requires IsPlainToken(cls)
    requires |t| > 0 && !IsWhitespace(t[|t| - 1])
    requires !OccursFrom(t, cls, atStart)
    ensures RemoveFrom(t + " " + cls, cls, atStart)
            == [t[0]] + RemoveFrom(t[1..] + " " + cls, cls, false)
  {
    var s := t + " " + cls;
    PrefixStopsAtSpace(cls, t, cls);
    assert !(atStart && cls <= s);
    var j := LeadingWhitespace(s);
    LeadingWhitespaceAppend(t, " " + cls);
    assert s == t + (" " + cls);
    assert j == LeadingWhitespace(t) < |t|;
    if IsWhitespace(s[0]) {
      assert s[j..] == t[j..] + " " + cls;
      PrefixStopsAtSpace(cls, t[j..], cls);
      assert IsWhitespace(t[j - 1]);
      assert !(cls <= t[(j - 1) + 1..]);
      assert !(cls <= s[j..]);
    }
    assert s[1..] == t[1..] + " " + cls;
  }

  /** The scan over a clean string followed by " " and `cls` deletes exactly
      the appended part. */
  lemma {:induction false} RemoveFromAppended(t: string, cls: string, atStart: bool)
    requires IsPlainToken(cls)
    requires !OccursFrom(t, cls, atStart)
    requires t == [] || !IsWhitespace(t[|t| - 1])
    ensures RemoveFrom(t + " " + cls, cls, atStart) == t
    decreases |t|
  {
    if |t| == 0 {
      var s := t + " " + cls;
      TokenCharNotWhitespace(cls, 0);
      assert s == " " + cls;
      assert s[1..] == cls;
      assert LeadingWhitespace(s) == 1;
      assert s[1 + |cls|..] == [];
    } else {
      AppendedStep(t, cls, atStart);
      OccursInTail(t, cls, atStart);
      RemoveFromAppended(t[1..], cls, false);
      assert t == [t[0]] + t[1..];
    }
  }

  /** Round trip: adding `cls` to a clean class string and removing it again
      gives back the original string. */
  lemma AddThenRemove(className: string, cls: string)
    requires IsPlainToken(cls)
    requires CleanBase(className, cls)
    ensures RemoveClass(AddClass(className, cls), cls) == className
  {
    if className == "" {
      assert cls[|cls|..] == [];
    } else {
      RemoveFromAppended(className, cls, true);
    }
  }

  /** The pattern has no boundary after `cls`: a longer class name that begins
      with `cls` loses that prefix and keeps its tail. */
  lemma RemoveCutsLongerName(cls: string, rest: string)
    requires IsPlainToken(cls)
    requires !OccursFrom(rest, cls, false)
    ensures RemoveClass(cls + rest, cls) == rest
  {
    assert (cls + rest)[|cls|..] == rest;
    RemoveFromUnchanged(rest, cls, false);
  }
}
