/** Character classes and string predicates used by the validators, the
    payment formatters and the catalog search. Characters are compared as
    code points; only the ASCII letters have a case. */
module Text {

  predicate IsDigit(c: char) { '0' <= c <= '9' }
  predicate IsLower(c: char) { 'a' <= c <= 'z' }
  predicate IsUpper(c: char) { 'A' <= c <= 'Z' }

  /** One validator of a chain: no message when it passes, its message when
      it fails. */
  function Check<T>(ok: bool, message: T): seq<T> {
    if ok then [] else [message]
  }

  predicate AllDigits(s: string) {
    forall i :: 0 <= i < |s| ==> IsDigit(s[i])
  }

  predicate HasCharWhere(s: string, p: char -> bool) {
    exists i :: 0 <= i < |s| && p(s[i])
  }

  predicate StartsWith(s: string, prefix: string) {
    |prefix| <= |s| && s[..|prefix|] == prefix
  }

  predicate EndsWith(s: string, suffix: string) {
    |suffix| <= |s| && s[|s| - |suffix|..] == suffix
  }

  /** What a JavaScript regular expression's `\s` matches (the ASCII
      spaces and the Unicode space separators it also accepts). */
  predicate IsSpace(c: char) {
    c == ' ' || c == '\t' || c == '\n' || c == '\r' || c == '\U{000B}' || c == '\U{000C}'
    || c == '\U{00A0}' || c == '\U{1680}' || ('\U{2000}' <= c <= '\U{200A}')
    || c == '\U{2028}' || c == '\U{2029}' || c == '\U{202F}' || c == '\U{205F}'
    || c == '\U{3000}' || c == '\U{FEFF}'
  }

  /** The line terminators that a regular expression's `.` does not match. */
  predicate IsLineTerminator(c: char) {
    c == '\n' || c == '\r' || c == '\U{2028}' || c == '\U{2029}'
  }

  /** `s.replace(/\D/g, '')`. */
  function KeepDigits(s: string): (r: string)
    ensures AllDigits(r)
    ensures |r| <= |s|
  {
    if s == [] then ""
    else (if IsDigit(s[0]) then [s[0]] else "") + KeepDigits(s[1..])
  }

  /** `s.replace(/\s/g, '')`. */
  function RemoveSpaces(s: string): (r: string)
    ensures forall i :: 0 <= i < |r| ==> !IsSpace(r[i])
    ensures |r| <= |s|
  {
    if s == [] then ""
    else (if IsSpace(s[0]) then "" else [s[0]]) + RemoveSpaces(s[1..])
  }

  lemma {:induction false} KeepDigitsOfDigits(s: string)
    requires AllDigits(s)
    ensures KeepDigits(s) == s
  {
    if s != [] {
      KeepDigitsOfDigits(s[1..]);
      assert s == [s[0]] + s[1..];
    }
  }

  /** Removing the spaces first changes nothing: no space is a digit. */
  lemma {:induction false} KeepDigitsIgnoresSpaces(s: string)
    ensures KeepDigits(RemoveSpaces(s)) == KeepDigits(s)
  {
    if s != [] {
      KeepDigitsIgnoresSpaces(s[1..]);
      var head := if IsSpace(s[0]) then "" else [s[0]];
      KeepDigitsAppend(head, RemoveSpaces(s[1..]));
      if !IsSpace(s[0]) {
        assert head[1..] == [];
      }
    }
  }

  lemma {:induction false} KeepDigitsAppend(a: string, b: string)
    ensures KeepDigits(a + b) == KeepDigits(a) + KeepDigits(b)
  {
    if a == [] {
      assert a + b == b;
    } else {
      var head := if IsDigit(a[0]) then [a[0]] else "";
      assert (a + b)[0] == a[0];
      assert (a + b)[1..] == a[1..] + b;
      KeepDigitsAppend(a[1..], b);
      assert KeepDigits(a + b) == head + KeepDigits(a[1..] + b);
      assert KeepDigits(a) == head + KeepDigits(a[1..]);
    }
  }

  lemma {:induction false} RemoveSpacesAppend(a: string, b: string)
    ensures RemoveSpaces(a + b) == RemoveSpaces(a) + RemoveSpaces(b)
  {
    if a == [] {
      assert a + b == b;
    } else {
      var head := if !IsSpace(a[0]) then [a[0]] else "";
      assert (a + b)[0] == a[0];
      assert (a + b)[1..] == a[1..] + b;
      RemoveSpacesAppend(a[1..], b);
      assert RemoveSpaces(a + b) == head + RemoveSpaces(a[1..] + b);
      assert RemoveSpaces(a) == head + RemoveSpaces(a[1..]);
    }
  }

  /** ASCII case folding, as SQLite's LIKE performs it. */
  function FoldCase(c: char): (r: char)
    ensures IsUpper(c) ==> IsLower(r)
    ensures !IsUpper(c) ==> r == c
  {
    if IsUpper(c) then (c as int - 'A' as int + 'a' as int) as char else c
  }

  predicate SameIgnoringCase(a: char, b: char) { FoldCase(a) == FoldCase(b) }

  /** `p` occurs at the start of `s`, ignoring ASCII case. */
  predicate PrefixIgnoringCase(p: string, s: string) {
    |p| <= |s| && forall k :: 0 <= k < |p| ==> SameIgnoringCase(s[k], p[k])
  }

  /** `p` occurs somewhere in `s`, ignoring ASCII case. */
  predicate ContainsIgnoringCase(s: string, p: string) {
    exists i :: 0 <= i <= |s| && PrefixIgnoringCase(p, s[i..])
  }
}
