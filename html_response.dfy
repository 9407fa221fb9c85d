/** The two string rewrites of the cURL HTML response: reading the charset
    out of a `Content-Type` value with the pattern
    `^(?P<type>[^;]+);[\t ]*charset=(?P<charset>.+)$` (case-insensitive,
    PCRE), and replacing every `<meta …Content-Type…>` tag with a fixed one.

    The patterns are modelled by what they can match, worked out from the
    PCRE rules: `[^;]+` and `[^>]+` cannot run past the first `;` or `>`,
    `.` stops at a newline, and `$` matches at the end or before a final
    newline. */
module Html {
  import opened Common

  /** Tab or space: the class `[\t ]`. */
  predicate Blank(c: char)
  {
    c == '\t' || c == ' '
  }

  /** The first index of `c` in `s` at or after `from`. */
  function IndexOfChar(s: string, c: char, from: nat): (r: Option<nat>)
    ensures r.Some? ==> from <= r.value < |s| && s[r.value] == c && forall i :: from <= i < r.value ==> s[i] != c
    ensures r.None? ==> forall i :: from <= i < |s| ==> s[i] != c
    decreases |s| - from
  {
    if from >= |s| then None
    else if s[from] == c then Some(from)
    else IndexOfChar(s, c, from + 1)
  }

  /** Number of leading tabs and spaces. */
  function LeadingBlanks(s: string): (n: nat)
    ensures n <= |s| && (forall i :: 0 <= i < n ==> Blank(s[i])) && (n < |s| ==> !Blank(s[n]))
  {
    if s == [] || !Blank(s[0]) then 0 else 1 + LeadingBlanks(s[1..])
  }

  /** What `.+$` captures of `v`: all of it when it has no newline, all
      but a final newline that is its only one; `None` when `.+` cannot
      reach the end, or captures nothing. */
  function DotToEnd(v: string): Option<string>
  {
    if '\n' !in v then (if v != "" then Some(v) else None)
    else if |v| >= 2 && v[|v| - 1] == '\n' && '\n' !in v[..|v| - 1] then Some(v[..|v| - 1])
    else None
  }

  /** What the pattern reads after the first `;`: tabs and spaces, then
      `charset=` in any case, then the value up to the end. */
  function ParamsCharset(rest: string): Option<string>
  {
    var after := rest[LeadingBlanks(rest)..];
    if |after| >= 8 && EqualsIgnoreCase(after[..8], "charset=") then DotToEnd(after[8..]) else None
  }

  /** `charsetFromContentType($contentType)`: the type `[^;]+` is all that
      precedes the first `;` and must not be empty. */
  function CharsetFromContentType(s: string): (r: Option<string>)
  {
    match IndexOfChar(s, ';', 0)
    case None => None
    case Some(p) => if p == 0 then None else ParamsCharset(s[p + 1..])
  }

  /** The parts the pattern names: a non-empty type without `;`, the `;`,
      tabs and spaces, `charset=` in any case, and a non-empty value. */
  predicate ContentTypeShape(typ: string, blanks: string, keyword: string, value: string)
  {
    typ != "" && ';' !in typ && (forall i :: 0 <= i < |blanks| ==> Blank(blanks[i])) &&
    |keyword| == 8 && EqualsIgnoreCase(keyword, "charset=") && value != ""
  }

  /** The first `;` of `typ + ";" + rest` is the one after `typ`. */
  lemma FirstSemicolon(typ: string, rest: string)
    requires typ != "" && ';' !in typ
    ensures CharsetFromContentType(typ + ";" + rest) == ParamsCharset(rest)
  {
    var s := typ + ";" + rest;
    assert s[|typ|] == ';';
    assert forall i :: 0 <= i < |typ| ==> s[i] == typ[i];
    assert IndexOfChar(s, ';', 0) == Some(|typ|);
    assert s[|typ| + 1..] == rest;
  }

  /** After the `;`, blanks then the keyword leave the tail to `.+$`. */
  lemma ParamsOf(blanks: string, keyword: string, tail: string)
    requires (forall i :: 0 <= i < |blanks| ==> Blank(blanks[i]))
    requires |keyword| == 8 && EqualsIgnoreCase(keyword, "charset=")
    ensures ParamsCharset(blanks + keyword + tail) == DotToEnd(tail)
  {
    assert !Blank(keyword[0]) by {
      assert LowerChar(keyword[0]) == LowerChar("charset="[0]);
    }
    var rest := blanks + keyword + tail;
    assert rest == blanks + (keyword + tail);
    LeadingBlanksOf(blanks, keyword + tail);
    assert rest[|blanks|..] == keyword + tail;
    assert (keyword + tail)[..8] == keyword;
    assert (keyword + tail)[8..] == tail;
  }

  /** Every value of that shape yields its charset, whatever is in it, `;`
      included. */
  lemma CharsetComplete(typ: string, blanks: string, keyword: string, value: string)
    requires ContentTypeShape(typ, blanks, keyword, value) && '\n' !in value
    ensures CharsetFromContentType(typ + ";" + blanks + keyword + value) == Some(value)
  {
    assert typ + ";" + blanks + keyword + value == typ + ";" + (blanks + keyword + value);
    FirstSemicolon(typ, blanks + keyword + value);
    ParamsOf(blanks, keyword, value);
  }

  /** The leading blanks of `b + t` are `b` when `t` does not start blank. */
  lemma {:induction false} LeadingBlanksOf(b: string, t: string)
    requires (forall i :: 0 <= i < |b| ==> Blank(b[i])) && (t == "" || !Blank(t[0]))
    ensures LeadingBlanks(b + t) == |b|
  {
    if b != [] {
      assert (b + t)[1..] == b[1..] + t;
      LeadingBlanksOf(b[1..], t);
    } else {
      assert b + t == t;
    }
  }

  /** What follows the `;` when a charset is read: blanks, the keyword and
      the value. */
  lemma {:induction false} ParamsSound(rest: string)
    requires '\n' !in rest && ParamsCharset(rest).Some?
    ensures var n := LeadingBlanks(rest);
      n + 8 <= |rest| && ParamsCharset(rest) == Some(rest[n + 8..]) &&
      rest == rest[..n] + rest[n..n + 8] + rest[n + 8..] &&
      |rest[n..n + 8]| == 8 && EqualsIgnoreCase(rest[n..n + 8], "charset=") && rest[n + 8..] != ""
  {
    var n := LeadingBlanks(rest);
    var after := rest[n..];
    assert after[..8] == rest[n..n + 8];
    assert after[8..] == rest[n + 8..];
    assert '\n' !in after[8..] by {
      forall i | 0 <= i < |after[8..]| ensures after[8..][i] != '\n' {
        assert after[8..][i] == rest[n + 8 + i];
      }
    }
  }

  /** A charset is only ever read out of a value of that shape: the type
      ends at the first `;`, only tabs and spaces precede `charset=`. */
  lemma CharsetSound(s: string)
    requires '\n' !in s && CharsetFromContentType(s).Some?
    ensures HasCharset(s, CharsetFromContentType(s).value)
  {
    var p := IndexOfChar(s, ';', 0).value;
    SplitAtFirst(s, ';', p);
    var typ, rest := s[..p], s[p + 1..];
    ParamsSound(rest);
    var n := LeadingBlanks(rest);
    var blanks, keyword, value := rest[..n], rest[n..n + 8], rest[n + 8..];
    assert s == typ + ";" + blanks + keyword + value by {
      Assoc4(typ + ";", blanks, keyword, value);
    }
    assert ContentTypeShape(typ, blanks, keyword, value);
  }

  /** `s` is a value of the pattern's shape with charset `value`. */
  ghost predicate HasCharset(s: string, value: string)
  {
    exists typ, blanks, keyword :: ContentTypeShape(typ, blanks, keyword, value) && s == typ + ";" + blanks + keyword + value
  }

  /** Splitting at the first `c`: what precedes it has no `c`, and what
      follows keeps the other characters of `s`. */
  lemma SplitAtFirst(s: string, c: char, p: nat)
    requires IndexOfChar(s, c, 0) == Some(p)
    ensures s == s[..p] + [c] + s[p + 1..]
    ensures c !in s[..p]
    ensures forall x :: x !in s ==> x !in s[p + 1..]
  {
    assert s == s[..p] + [s[p]] + s[p + 1..];
  }

  /** `a + (b + c + d)` is `a + b + c + d`. */
  lemma Assoc4(a: string, b: string, c: string, d: string)
    ensures a + (b + c + d) == a + b + c + d
  {
  }

  /** A final newline does not change the charset: `$` matches before it. */
  lemma CharsetFinalNewline(typ: string, blanks: string, keyword: string, value: string)
    requires ContentTypeShape(typ, blanks, keyword, value) && '\n' !in value
    ensures CharsetFromContentType(typ + ";" + blanks + keyword + value + "\n") == Some(value)
  {
    assert typ + ";" + blanks + keyword + value + "\n" == typ + ";" + (blanks + keyword + (value + "\n"));
    FirstSemicolon(typ, blanks + keyword + (value + "\n"));
    ParamsOf(blanks, keyword, value + "\n");
    assert (value + "\n")[..|value|] == value;
  }

  /** A value with no `;` has no charset. */
  lemma NoSemicolonNoCharset(s: string)
    requires ';' !in s
    ensures CharsetFromContentType(s).None?
  {
  }

  // ------------------------------------------------------------ meta tags

  /** The charset `fixContentTypeMeta` uses when none is given. */
  const DefaultCharset: string := "utf-8"

  /** The tag that replaces each matched one. */
  function FixedMeta(charset: string): string
  {
    "<meta http-equiv=\"Content-Type\" content=\"text/html; charset=" + charset + "\" />"
  }

  /** A tag `<meta[^>]+Content-Type[^>]+>` matches, in any case. */
  predicate IsMetaTag(t: string)
  {
    |t| >= 19 && EqualsIgnoreCase(t[..5], "<meta") && t[|t| - 1] == '>' &&
    (forall i :: 5 <= i < |t| - 1 ==> t[i] != '>') &&
    exists k :: 6 <= k && k + 12 <= |t| - 2 && OccursAtIgnoreCase(t, "Content-Type", k)
  }

  /** The length of the match of the meta pattern at the start of `s`. */
  function MetaAt(s: string): (r: Option<nat>)
  {
    if |s| >= 5 && EqualsIgnoreCase(s[..5], "<meta") then
      match IndexOfChar(s, '>', 5)
      case None => None
      case Some(j) =>
        match IndexOfIgnoreCase(s[5..j], "Content-Type", 1)
        case Some(k) => if k + 12 < j - 5 then Some(j + 1) else None
        case None => None
    else None
  }

  /** An occurrence carries over to the same text in another string. */
  lemma OccursAtSame(a: string, i: nat, b: string, j: nat, w: string)
    requires OccursAtIgnoreCase(a, w, i) && j + |w| <= |b| && b[j..j + |w|] == a[i..i + |w|]
    ensures OccursAtIgnoreCase(b, w, j)
  {
  }

  /** A match at the start of `s` is a tag of the pattern's shape. */
  lemma MetaAtSound(s: string)
    requires MetaAt(s).Some?
    ensures 0 < MetaAt(s).value <= |s| && IsMetaTag(s[..MetaAt(s).value])
  {
    var j := IndexOfChar(s, '>', 5).value;
    var m := s[5..j];
    IndexOfIgnoreCaseSpec(m, "Content-Type", 1);
    var k := IndexOfIgnoreCase(m, "Content-Type", 1).value;
    var t := s[..j + 1];
    assert k + 12 < |m|;
    var word, inTag := m[k..k + 12], t[5 + k..5 + k + 12];
    assert inTag == word by {
      forall i | 0 <= i < 12 ensures inTag[i] == word[i] {
        assert t[5 + k + i] == s[5 + k + i] == m[k + i];
      }
    }
    OccursAtSame(m, k, t, 5 + k, "Content-Type");
    assert t[..5] == s[..5];
  }

  /** A tag of the pattern's shape at the start of `s` is the match there:
      the pattern cannot stop short of, or run past, its `>`. */
  lemma MetaAtComplete(s: string, n: nat)
    requires 0 < n <= |s| && IsMetaTag(s[..n])
    ensures MetaAt(s) == Some(n)
  {
    var t := s[..n];
    assert t[..5] == s[..5];
    assert s[n - 1] == t[n - 1];
    assert forall i :: 5 <= i < n - 1 ==> s[i] == t[i];
    assert IndexOfChar(s, '>', 5) == Some(n - 1);
    var m := s[5..n - 1];
    var k :| 6 <= k && k + 12 <= |t| - 2 && OccursAtIgnoreCase(t, "Content-Type", k);
    assert m[k - 5..k - 5 + 12] == s[k..k + 12];
    assert t[k..k + 12] == s[k..k + 12];
    OccursAtSame(t, k, m, k - 5, "Content-Type");
    IndexOfIgnoreCaseSpec(m, "Content-Type", 1);
  }

  /** `Strings::replace($document, pattern, $replacement)`: leftmost
      matches, left to right, none overlapping. */
  function ReplaceMetas(s: string, replacement: string): string
    decreases |s|
  {
    if s == [] then []
    else match MetaAt(s)
      case Some(n) => replacement + ReplaceMetas(s[n..], replacement)
      case None => [s[0]] + ReplaceMetas(s[1..], replacement)
  }

  /** `fixContentTypeMeta($document, $charset)`. */
  function FixContentTypeMeta(document: string, charset: string): string
  {
    ReplaceMetas(document, FixedMeta(charset))
  }

  /** A document without a matching tag is returned unchanged. */
  lemma {:induction false} NoMetaUnchanged(s: string, charset: string)
    requires forall i :: 0 <= i < |s| ==> MetaAt(s[i..]).None?
    ensures FixContentTypeMeta(s, charset) == s
    decreases |s|
  {
    if s != [] {
      assert MetaAt(s[0..]).None?;
      assert s[0..] == s;
      assert forall i :: 0 <= i < |s[1..]| ==> s[1..][i..] == s[i + 1..];
      NoMetaUnchanged(s[1..], charset);
    }
  }

  /** A matching tag at the front is replaced by the fixed tag, and the
      rest of the document is rewritten on its own. */
  lemma TagReplaced(tag: string, rest: string, charset: string)
    requires IsMetaTag(tag)
    ensures FixContentTypeMeta(tag + rest, charset) == FixedMeta(charset) + FixContentTypeMeta(rest, charset)
  {
    var s := tag + rest;
    assert s[..|tag|] == tag;
    MetaAtComplete(s, |tag|);
    assert s[|tag|..] == rest;
  }

  /** A match starts with `<`. */
  lemma MetaStartsWithLt(s: string)
    ensures MetaAt(s).Some? ==> s != [] && s[0] == '<'
  {
    if MetaAt(s).Some? {
      assert LowerChar(s[..5][0]) == LowerChar("<meta"[0]);
    }
  }

  /** Text before the first `<` is kept as it is. */
  lemma {:induction false} PlainPrefixKept(text: string, rest: string, charset: string)
    requires '<' !in text
    ensures FixContentTypeMeta(text + rest, charset) == text + FixContentTypeMeta(rest, charset)
    decreases |text|
  {
    if text != [] {
      var s := text + rest;
      assert s[0] == text[0];
      MetaStartsWithLt(s);
      assert FixContentTypeMeta(s, charset) == [text[0]] + FixContentTypeMeta(s[1..], charset);
      assert s[1..] == text[1..] + rest;
      PlainPrefixKept(text[1..], rest, charset);
      assert text == [text[0]] + text[1..];
    } else {
      assert text + rest == rest;
    }
  }
}
