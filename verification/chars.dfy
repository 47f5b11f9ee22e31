/** The character classes the string functions rely on, as ECMAScript
    defines them: the regular-expression class `\s` (WhiteSpace and
    LineTerminator, section 22.2.2.9 of ECMA-262), which is also what the
    built-in `parseInt` skips at the start of its argument, and the line
    terminators that end a line for `.` and for the `m` flag; and the
    scans for runs of whitespace that splitting and trimming share.
 */
module Chars {

  /** LineTerminator: LF, CR, LINE SEPARATOR, PARAGRAPH SEPARATOR. */
  const LineTerminators: set<char> := {'\n', '\r', '\U{2028}', '\U{2029}'}

  /** WhiteSpace: TAB, VT, FF, SP, NBSP, ZWNBSP and the Unicode category Zs. */
  const WhiteSpace: set<char> :=
    {'\t', '\U{000B}', '\U{000C}', ' ', '\U{00A0}', '\U{FEFF}', '\U{1680}',
     '\U{2000}', '\U{2001}', '\U{2002}', '\U{2003}', '\U{2004}', '\U{2005}',
     '\U{2006}', '\U{2007}', '\U{2008}', '\U{2009}', '\U{200A}',
     '\U{202F}', '\U{205F}', '\U{3000}'}

  predicate IsLineTerminator(c: char) {
    c in LineTerminators
  }

  /** `\s`: WhiteSpace together with LineTerminator. */
  predicate IsSpace(c: char) {
    c in WhiteSpace || c in LineTerminators
  }

  /** The first whitespace position at or after `i`, or the length. */
  function FindSpace(s: string, i: nat): (k: nat)
    requires i <= |s|
    ensures i <= k <= |s|
    ensures forall j :: i <= j < k ==> !IsSpace(s[j])
    ensures k < |s| ==> IsSpace(s[k])
    decreases |s| - i
  {
    if i == |s| || IsSpace(s[i]) then i else FindSpace(s, i + 1)
  }

  /** The end of the run of whitespace starting at `i`. */
  function SkipSpace(s: string, i: nat): (k: nat)
    requires i <= |s|
    ensures i <= k <= |s|
    ensures forall j :: i <= j < k ==> IsSpace(s[j])
    ensures k < |s| ==> !IsSpace(s[k])
    decreases |s| - i
  {
    if i == |s| || !IsSpace(s[i]) then i else SkipSpace(s, i + 1)
  }
}
