/** Text operations the cleaning and lookup code relies on: substring search, removal of the currency
    symbol and thousands separator, whitespace trimming and upper-casing. */
module Strings {

  /** `s` holds `p` as a contiguous block starting at index `i`. */
  predicate OccursAt(s: string, p: string, i: int) {
    0 <= i && i + |p| <= |s| && s[i..i + |p|] == p
  }

  /** Literal substring test, the behaviour of a pandas `str.contains` on a pattern without
      regular-expression metacharacters. */
  function Contains(s: string, p: string): (r: bool)
    ensures r <==> exists i :: OccursAt(s, p, i)
    decreases |s|
  {
    if |p| > |s| then
      assert forall i :: !OccursAt(s, p, i);
      false
    else if s[..|p|] == p then
      assert OccursAt(s, p, 0);
      true
    else
      var r := Contains(s[1..], p);
      ShiftOccurrence(s, p);
      r
  }

  /** An occurrence in `s` after its first character is an occurrence in `s[1..]`, one place earlier. */
  lemma ShiftOccurrence(s: string, p: string)
    requires |p| <= |s| && s[..|p|] != p
    ensures (exists i :: OccursAt(s, p, i)) <==> (exists i :: OccursAt(s[1..], p, i))
  {
    if exists i :: OccursAt(s, p, i) {
      var i :| OccursAt(s, p, i);
      assert i != 0;
      assert s[1..][i - 1..i - 1 + |p|] == s[i..i + |p|];
      assert OccursAt(s[1..], p, i - 1);
    }
    if exists i :: OccursAt(s[1..], p, i) {
      var i :| OccursAt(s[1..], p, i);
      assert s[1..][i..i + |p|] == s[i + 1..i + 1 + |p|];
      assert OccursAt(s, p, i + 1);
    }
  }

  /** The characters the regular expression `[\$,]` matches. */
  predicate IsCurrencySymbol(c: char) {
    c == '$' || c == ','
  }

  /** Every `$` and `,` removed, the other characters kept in order. */
  function StripCurrency(s: string): (r: string)
    ensures |r| <= |s|
    ensures forall i :: 0 <= i < |r| ==> !IsCurrencySymbol(r[i])
  {
    if s == [] then []
    else (if IsCurrencySymbol(s[0]) then [] else [s[0]]) + StripCurrency(s[1..])
  }

  /** Stripping works character by character, so it distributes over concatenation. */
  lemma {:induction false} StripCurrencyAppend(a: string, b: string)
    ensures StripCurrency(a + b) == StripCurrency(a) + StripCurrency(b)
  {
    if a != [] {
      assert (a + b)[0] == a[0] && (a + b)[1..] == a[1..] + b;
      StripCurrencyAppend(a[1..], b);
    } else {
      assert a + b == b;
    }
  }

  /** Text without currency symbols is left unchanged, so stripping twice is stripping once. */
  lemma {:induction false} StripCurrencyKeepsPlainText(s: string)
    requires forall i :: 0 <= i < |s| ==> !IsCurrencySymbol(s[i])
    ensures StripCurrency(s) == s
  {
    if s != [] {
      StripCurrencyKeepsPlainText(s[1..]);
    }
  }

  /** The characters for which a Python `str.isspace()` holds. */
  predicate IsSpace(c: char) {
    c == ' ' || ('\t' <= c <= '\r') || ('\U{1c}' <= c <= '\U{1f}') || c == '\U{85}' || c == '\U{a0}'
    || c == '\U{1680}' || ('\U{2000}' <= c <= '\U{200a}') || c == '\U{2028}' || c == '\U{2029}'
    || c == '\U{202f}' || c == '\U{205f}' || c == '\U{3000}'
  }

  predicate AllSpace(s: string) {
    forall i :: 0 <= i < |s| ==> IsSpace(s[i])
  }

  /** `s` without its leading whitespace. */
  function TrimStart(s: string): (r: string)
    ensures |r| <= |s| && r == s[|s| - |r|..]
    ensures AllSpace(s[..|s| - |r|])
    ensures r == [] || !IsSpace(r[0])
  {
    if s != [] && IsSpace(s[0]) then TrimStart(s[1..]) else s
  }

  /** `s` without its trailing whitespace. */
  function TrimEnd(s: string): (r: string)
    ensures |r| <= |s| && r == s[..|r|]
    ensures AllSpace(s[|r|..])
    ensures r == [] || !IsSpace(r[|r| - 1])
  {
    if s != [] && IsSpace(s[|s| - 1]) then
      var r := TrimEnd(s[..|s| - 1]);
      assert s[..|s| - 1][..|r|] == s[..|r|];
      assert s[|r|..] == s[..|s| - 1][|r|..] + [s[|s| - 1]];
      r
    else s
  }

  /** Python's `str.strip()` with no argument. */
  function Trim(s: string): (r: string)
    ensures |r| <= |s|
    ensures r == [] || (!IsSpace(r[0]) && !IsSpace(r[|r| - 1]))
  {
    TrimEnd(TrimStart(s))
  }

  /** Trimming cuts whitespace off both ends of `s` and nothing else. */
  lemma TrimIsSlice(s: string)
    ensures exists p, q :: AllSpace(p) && AllSpace(q) && s == p + Trim(s) + q
  {
    var t := TrimStart(s);
    var r := TrimEnd(t);
    PrefixOfSuffix(s, t, r);
    var p, q := s[..|s| - |t|], t[|r|..];
    assert AllSpace(p) && AllSpace(q) && s == p + Trim(s) + q;
  }

  /** A suffix `t` of `s` and a prefix `r` of `t` cut `s` into three pieces. */
  lemma PrefixOfSuffix<T>(s: seq<T>, t: seq<T>, r: seq<T>)
    requires |t| <= |s| && t == s[|s| - |t|..]
    requires |r| <= |t| && r == t[..|r|]
    ensures s == s[..|s| - |t|] + r + t[|r|..]
  {
    assert s == s[..|s| - |t|] + t;
    assert t == r + t[|r|..];
  }

  /** Leading whitespace does not survive `TrimStart`. */
  lemma {:induction false} TrimStartSkipsPadding(p: string, s: string)
    requires AllSpace(p)
    ensures TrimStart(p + s) == TrimStart(s)
  {
    if p != [] {
      assert (p + s)[1..] == p[1..] + s;
      TrimStartSkipsPadding(p[1..], s);
    } else {
      assert p + s == s;
    }
  }

  /** Appending whitespace either survives `TrimStart` untouched or everything was whitespace. */
  lemma {:induction false} TrimStartKeepsTail(s: string, q: string)
    requires AllSpace(q)
    ensures TrimStart(s + q) == TrimStart(s) + q || (TrimStart(s + q) == [] && TrimStart(s) == [])
  {
    if s == [] {
      assert s + q == [] + q;
      TrimStartSkipsPadding(q, []);
      assert q + [] == q;
    } else {
      assert (s + q)[0] == s[0] && (s + q)[1..] == s[1..] + q;
      if IsSpace(s[0]) {
        TrimStartKeepsTail(s[1..], q);
      }
    }
  }

  /** Trailing whitespace does not survive `TrimEnd`. */
  lemma {:induction false} TrimEndSkipsPadding(s: string, q: string)
    requires AllSpace(q)
    ensures TrimEnd(s + q) == TrimEnd(s)
    decreases |q|
  {
    if q != [] {
      var q' := q[..|q| - 1];
      assert (s + q)[..|s + q| - 1] == s + q';
      TrimEndSkipsPadding(s, q');
    } else {
      assert s + q == s;
    }
  }

  /** `Trim` ignores whitespace padding on either side. */
  lemma TrimIgnoresPadding(p: string, s: string, q: string)
    requires AllSpace(p) && AllSpace(q)
    ensures Trim(p + s + q) == Trim(s)
  {
    assert p + s + q == p + (s + q);
    TrimStartSkipsPadding(p, s + q);
    assert Trim(p + s + q) == TrimEnd(TrimStart(s + q));
    TrimStartKeepsTail(s, q);
    if TrimStart(s + q) == TrimStart(s) + q {
      TrimEndSkipsPadding(TrimStart(s), q);
    } else {
      assert TrimStart(s + q) == [] && TrimStart(s) == [];
    }
  }

  /** Upper-case letter of an ASCII lower-case letter; every other character unchanged. */
  function UpperChar(c: char): char {
    if 'a' <= c <= 'z' then (c as int - 32) as char else c
  }

  /** Upper-casing, character by character. */
  function Upper(s: string): (r: string)
    ensures |r| == |s|
    ensures forall i :: 0 <= i < |s| ==> r[i] == UpperChar(s[i])
  {
    if s == [] then [] else [UpperChar(s[0])] + Upper(s[1..])
  }
}
